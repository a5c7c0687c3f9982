/** The cuckoo cache with lazy erasure (src/cuckoocache.h). */
module Cuckoo {
  import Bits

  // Bit-packed flags

  function Mask(k: nat): bv8
    requires k < 8
  {
    1 << k
  }

  lemma SetMask(m: bv8, j: nat, k: nat)
    requires j < 8 && k < 8
    ensures (m | Mask(k)) & Mask(j) != 0 <==> j == k || m & Mask(j) != 0
  {
  }

  lemma UnsetMask(m: bv8, j: nat, k: nat)
    requires j < 8 && k < 8
    ensures (m & !Mask(k)) & Mask(j) != 0 <==> j != k && m & Mask(j) != 0
  {
  }

  class BitPackedFlags {
    var mem: seq<bv8>

    /** Flag `s`, for all `s` that there is room for. */
    predicate IsSet(s: nat)
      requires s < 8 * |mem|
      reads this
    {
      Mask(s % 8) & mem[s / 8] != 0
    }

    constructor (size: nat)
      ensures size <= 8 * |mem| < size + 8
      ensures forall s: nat | s < 8 * |mem| :: IsSet(s)
    {
      mem := seq((size + 7) / 8, _ => 0xFF);
    }

    method BitSet(s: nat)
      requires s < 8 * |mem|
      modifies this
      ensures |mem| == |old(mem)|
      ensures forall t: nat | t < 8 * |mem| :: IsSet(t) <==> t == s || old(IsSet(t))
    {
      forall t: nat | t < 8 * |mem| && t / 8 == s / 8
        ensures (mem[s / 8] | Mask(s % 8)) & Mask(t % 8) != 0 <==> t == s || IsSet(t)
      {
        SetMask(mem[s / 8], t % 8, s % 8);
      }
      mem := mem[s / 8 := mem[s / 8] | Mask(s % 8)];
    }

    method BitUnset(s: nat)
      requires s < 8 * |mem|
      modifies this
      ensures |mem| == |old(mem)|
      ensures forall t: nat | t < 8 * |mem| :: IsSet(t) <==> t != s && old(IsSet(t))
    {
      forall t: nat | t < 8 * |mem| && t / 8 == s / 8
        ensures (mem[s / 8] & !Mask(s % 8)) & Mask(t % 8) != 0 <==> t != s && IsSet(t)
      {
        UnsetMask(mem[s / 8], t % 8, s % 8);
      }
      mem := mem[s / 8 := mem[s / 8] & !Mask(s % 8)];
    }
  }

  // The table

  const HASHES: nat := 8
  const RANGE: nat := 0x1_0000_0000

  /** Eight 32-bit hashes of an element. */
  type Hash<!E> = (nat, E) -> nat

  /** A hash taken as a fraction of 2^32, times the size. */
  function Location(h: nat, size: nat): (loc: nat)
    requires size > 0
    ensures loc < size
  {
    LocationFits(h % RANGE, size);
    (h % RANGE) * size / RANGE
  }

  lemma LocationFits(h: nat, size: nat)
    requires size > 0 && h < RANGE
    ensures 0 <= h * size / RANGE < size
  {
    var q := h * size / RANGE;
    Bits.DivNonNegative(h * size, RANGE);
    Bits.Scaled(h, RANGE - 1, size);
    if q >= size { Bits.Scaled(size, q, RANGE); }
  }

  function ComputeHashes<E>(hash: Hash<E>, size: nat, e: E): (locs: seq<nat>)
    requires size > 0
    ensures |locs| == HASHES && forall k | 0 <= k < HASHES :: locs[k] < size
  {
    [Location(hash(0, e), size), Location(hash(1, e), size), Location(hash(2, e), size), Location(hash(3, e), size),
     Location(hash(4, e), size), Location(hash(5, e), size), Location(hash(6, e), size), Location(hash(7, e), size)]
  }

  /** The elements in slots not marked for erasure. */
  ghost function Live<E>(table: seq<E>, dead: seq<bool>): set<E>
    requires |table| == |dead|
  {
    set i | 0 <= i < |table| && !dead[i] :: table[i]
  }

  /** Every live element is at one of its own eight locations. */
  ghost predicate Placed<E(!new)>(hash: Hash<E>, table: seq<E>, dead: seq<bool>)
    requires |table| == |dead| > 0
  {
    forall i | 0 <= i < |table| && !dead[i] :: i in ComputeHashes(hash, |table|, table[i])
  }

  /** Writing an element into a dead slot adds it. */
  lemma Filled<E>(table: seq<E>, dead: seq<bool>, i: nat, e: E)
    requires |table| == |dead| && i < |table| && dead[i]
    ensures Live(table[i := e], dead[i := false]) == Live(table, dead) + {e}
  {
    var now, alive := table[i := e], dead[i := false];
    assert now[i] == e;
    forall x | x in Live(table, dead) ensures x in Live(now, alive) {
      var k :| 0 <= k < |table| && !dead[k] && table[k] == x;
      assert now[k] == x;
    }
  }

  /** Exchanging the element of a live slot for the one in hand loses nothing. */
  lemma Exchanged<E>(table: seq<E>, dead: seq<bool>, i: nat, e: E)
    requires |table| == |dead| && i < |table| && !dead[i]
    ensures Live(table[i := e], dead) + {table[i]} == Live(table, dead) + {e}
  {
    var now := table[i := e];
    assert now[i] == e;
    forall x | x in Live(table, dead) ensures x in Live(now, dead) + {table[i]} {
      var k :| 0 <= k < |table| && !dead[k] && table[k] == x;
      assert k != i ==> now[k] == x;
    }
  }

  /** Keeping a slot that already holds the element. */
  lemma Revived<E>(table: seq<E>, dead: seq<bool>, i: nat)
    requires |table| == |dead| && i < |table|
    ensures Live(table, dead[i := false]) == Live(table, dead) + {table[i]}
  {
    var alive := dead[i := false];
    assert !alive[i];
    forall x | x in Live(table, dead) ensures x in Live(table, alive) {
      var k :| 0 <= k < |table| && !dead[k] && table[k] == x;
      assert !alive[k];
    }
  }

  /** The location after the last one, or the second when there is none. */
  function NextLocation(locs: seq<nat>, last: int): (loc: nat)
    requires |locs| == HASHES
    ensures loc in locs
    ensures last !in locs ==> loc == locs[1]
  {
    locs[(1 + Find(locs, last, 0)) % 8]
  }

  function Find(locs: seq<nat>, x: int, k: nat): (i: nat)
    requires k <= |locs|
    ensures k <= i <= |locs|
    ensures i < |locs| ==> locs[i] == x
    ensures i == |locs| ==> x !in locs[k..]
    ensures forall j | k <= j < i :: locs[j] != x
    decreases |locs| - k
  {
    if k == |locs| || locs[k] == x then k else Find(locs, x, k + 1)
  }

  function Max(a: nat, b: nat): nat { if a > b then a else b }

  class Cache<E(==,!new)> {
    const hash: Hash<E>
    const depthLimit: nat
    var table: seq<E>
    var flags: BitPackedFlags
    var epochFlags: seq<bool>
    var epochHeuristicCounter: nat
    var epochSize: nat

    ghost function Dead(): (d: seq<bool>)
      requires |table| <= 8 * |flags.mem|
      reads `table, `flags, flags
      ensures |d| == |table| && forall i | 0 <= i < |table| :: d[i] == flags.IsSet(i)
    {
      var f := flags;
      seq(|table|, i requires 0 <= i < 8 * |f.mem| reads f => f.IsSet(i))
    }

    ghost predicate Valid()
      reads `table, `flags, `epochFlags, flags
      ensures Valid() ==> |table| >= 2 && |epochFlags| == |table| <= 8 * |flags.mem|
    {
      && |table| >= 2 && |epochFlags| == |table| && |table| <= 8 * |flags.mem|
      && Placed(hash, table, Dead())
    }

    /** The elements the cache holds on to. */
    ghost function Contents(): set<E>
      requires Valid()
      reads `table, `flags, `epochFlags, flags
    {
      Live(table, Dead())
    }

    /** setup: every slot is free. */
    constructor (hash: Hash<E>, newSize: nat, depthLimit: nat, blank: E)
      ensures Valid() && Contents() == {} && fresh(flags)
      ensures |table| == if newSize < 2 then 2 else newSize
      ensures epochSize == epochHeuristicCounter && this.depthLimit == depthLimit && this.hash == hash
      ensures 1 <= epochSize && (epochSize == 1 || 100 * epochSize <= 45 * |table| < 100 * (epochSize + 1))
    {
      this.hash := hash;
      this.depthLimit := depthLimit;
      var size := if newSize < 2 then 2 else newSize;
      table := seq(size, _ => blank);
      epochFlags := seq(size, _ => false);
      epochSize := if 45 * size / 100 < 1 then 1 else 45 * size / 100;
      epochHeuristicCounter := if 45 * size / 100 < 1 then 1 else 45 * size / 100;
      flags := new BitPackedFlags(size);
    }

    /** Finds every element it holds on to. */
    method Contains(e: E, erase: bool) returns (found: bool)
      requires Valid()
      modifies flags
      ensures Valid() && (e in old(Contents()) ==> found)
      ensures found <==> exists k | 0 <= k < HASHES :: table[ComputeHashes(hash, |table|, e)[k]] == e
      ensures if erase then old(Contents()) - {e} <= Contents() <= old(Contents()) else Contents() == old(Contents())
      ensures if erase && found
        then exists k | 0 <= k < HASHES :: Marks(e, ComputeHashes(hash, |table|, e)[k], old(Dead()))
        else Dead() == old(Dead())
    {
      var locs := ComputeHashes(hash, |table|, e);
      for k := 0 to HASHES
        invariant forall j | 0 <= j < k :: table[locs[j]] != e
        invariant Valid() && Dead() == old(Dead())
      {
        if table[locs[k]] == e {
          if erase {
            flags.BitSet(locs[k]);
            assert Marks(e, locs[k], old(Dead()));
          }
          return true;
        }
      }
      return false;
    }
  
    /** One slot that holds the element is marked for erasure. */
    ghost predicate Marks(e: E, loc: nat, dead: seq<bool>)
      requires Valid() && |dead| == |table|
      reads `table, `flags, `epochFlags, flags
    {
      loc < |table| && table[loc] == e && Dead() == dead[loc := true]
    }

    /** How many live elements belong to the current epoch. */
    ghost function Recent(k: nat): nat
      requires Valid() && k <= |table|
      reads `table, `flags, `epochFlags, flags
    {
      if k == 0 then 0 else Recent(k - 1) + if epochFlags[k - 1] && !flags.IsSet(k - 1) then 1 else 0
    }

    /** Ages the epochs when the current one is full: then exactly the elements of the older one are let go. */
    method EpochCheck()
      requires Valid()
      modifies this`epochFlags, this`epochHeuristicCounter, flags
      ensures Valid() && Contents() <= old(Contents())
      ensures if old(Full()) then Aged(old(Dead()), old(epochFlags))
              else Dead() == old(Dead()) && epochFlags == old(epochFlags)
      ensures !old(Full()) ==> Contents() == old(Contents())
      ensures epochHeuristicCounter == old(NextCounter())
    {
      hide Placed, Live, Aged, Cache.Valid, Cache.Contents, Cache.Dead, Cache.Recent;
      if epochHeuristicCounter != 0 {
        epochHeuristicCounter := epochHeuristicCounter - 1;
        return;
      }
      var epochUnusedCount := CountRecent();
      if epochUnusedCount >= epochSize {
        Age();
        epochHeuristicCounter := epochSize;
      } else {
        var left := if epochSize / 16 > epochSize - epochUnusedCount then epochSize / 16
          else epochSize - epochUnusedCount;
        epochHeuristicCounter := Max(1, left);
      }
    }

    method CountRecent() returns (n: nat)
      requires Valid()
      ensures n == Recent(|table|)
    {
      hide Placed;
      n := 0;
      for i := 0 to |table|
        invariant n == Recent(i)
      {
        if epochFlags[i] && !flags.IsSet(i) { n := n + 1; }
      }
    }

    /** The number of insertions until the next scan: a whole epoch after ageing, else as many as the epoch lacks. */
    ghost function NextCounter(): nat
      requires Valid()
      reads this, flags
    {
      if epochHeuristicCounter != 0 then epochHeuristicCounter - 1
      else if Full() then epochSize
      else
        var left := epochSize - Recent(|table|);
        if epochSize / 16 > left then Max(1, epochSize / 16) else Max(1, left)
    }

    /** The wait is over and the current epoch has its share of live elements. */
    ghost predicate Full()
      requires Valid()
      reads this, flags
    {
      epochHeuristicCounter == 0 && Recent(|table|) >= epochSize
    }

    /** What was not of the current epoch is let go, and nothing is of the current epoch any more. */
    ghost predicate Aged(dead: seq<bool>, epochs: seq<bool>)
      requires Valid() && |dead| == |epochs| == |table|
      reads `table, `flags, `epochFlags, flags
    {
      forall i | 0 <= i < |table| :: Dead()[i] == (dead[i] || !epochs[i]) && !epochFlags[i]
    }

    method Age()
      requires Valid()
      modifies this`epochFlags, flags
      ensures Valid() && Contents() <= old(Contents())
      ensures Aged(old(Dead()), old(epochFlags))
    {
      ghost var was, epochs := Dead(), epochFlags;
      for i := 0 to |table|
        invariant Valid()
        invariant forall k | 0 <= k < |table| :: Dead()[k] == (was[k] || (k < i && !epochs[k]))
        invariant forall k | 0 <= k < |table| :: epochFlags[k] == (epochs[k] && k >= i)
      {
        if epochFlags[i] {
          epochFlags := epochFlags[i := false];
        } else {
          flags.BitSet(i);
        }
      }
    }

    /** Writes an element to a slot that is free or already holds it, and keeps it. */
    method Store(loc: nat, e: E, epoch: bool)
      requires Valid() && loc in ComputeHashes(hash, |table|, e) && (flags.IsSet(loc) || table[loc] == e)
      modifies this`table, this`epochFlags, flags
      ensures Valid() && Contents() == old(Contents()) + {e}
      ensures table == old(table)[loc := e] && epochFlags == old(epochFlags)[loc := epoch]
      ensures Dead() == old(Dead())[loc := false]
    {
      ghost var was, dead := table, Dead();
      if table[loc] == e { Revived(was, dead, loc); } else { Filled(was, dead, loc, e); }
      table := table[loc := e];
      flags.BitUnset(loc);
      epochFlags := epochFlags[loc := epoch];
      assert Dead() == dead[loc := false] && (was[loc] == e ==> table == was);
    }

    /** Exchanges the element in hand for a live one. */
    method Swap(loc: nat, e: E, epoch: bool) returns (other: E, otherEpoch: bool)
      requires Valid() && loc in ComputeHashes(hash, |table|, e) && !flags.IsSet(loc)
      modifies this`table, this`epochFlags
      ensures Valid() && Contents() + {other} == old(Contents()) + {e}
      ensures table == old(table)[loc := e] && other == old(table)[loc] && Dead() == old(Dead())
      ensures epochFlags == old(epochFlags)[loc := epoch] && otherEpoch == old(epochFlags)[loc]
    {
      Exchanged(table, Dead(), loc, e);
      ghost var dead := Dead();
      other, otherEpoch := table[loc], epochFlags[loc];
      table := table[loc := e];
      epochFlags := epochFlags[loc := epoch];
      assert Dead() == dead;
    }

    /** The first of some locations that is free or holds the element, or none. */
    method Search(locs: seq<nat>, e: E, free: bool) returns (found: bool, loc: nat)
      requires Valid() && |locs| == HASHES && forall k | 0 <= k < HASHES :: locs[k] < |table|
      ensures found ==> loc in locs && (if free then flags.IsSet(loc) else table[loc] == e)
      ensures !found ==> forall k | 0 <= k < HASHES :: !(if free then flags.IsSet(locs[k]) else table[locs[k]] == e)
    {
      for k := 0 to HASHES
        invariant forall j | 0 <= j < k :: !(if free then flags.IsSet(locs[j]) else table[locs[j]] == e)
      {
        if if free then flags.IsSet(locs[k]) else table[locs[k]] == e { return true, locs[k]; }
      }
      return false, 0;
    }

    /** The elements that stay through epoch_check: all, or those of the current epoch when it is full. */
    ghost function Surviving(): set<E>
      requires Valid()
      reads this, flags
    {
      if Full() then set i | 0 <= i < |table| && !Dead()[i] && epochFlags[i] :: table[i] else Contents()
    }

    /** Keeps an element: besides what ageing lets go, at most one element is lost, which may be the new one. */
    method Insert(e0: E) returns (ghost lost: set<E>)
      requires Valid()
      modifies this`table, this`epochFlags, this`epochHeuristicCounter, flags
      ensures Valid() && |lost| <= 1 && Contents() == old(Surviving()) + {e0} - lost
    {
      ghost var surviving := Surviving();
      EpochCheck();
      assert Contents() == surviving;
      hide *;
      lost := Place(e0);
    }

    /** Puts the element in hand into a free slot, or exchanges it for the one at the next location. */
    method Round(e: E, lastLoc: int, lastEpoch: bool) returns (done: bool, other: E, loc: int, epoch: bool)
      requires Valid()
      modifies this`table, this`epochFlags, flags
      ensures Valid()
      ensures if done then Contents() == old(Contents()) + {e} else Contents() + {other} == old(Contents()) + {e}
    {
      hide Placed, Live, Cache.Valid;
      var locs := ComputeHashes(hash, |table|, e);
      done, loc := Search(locs, e, true);
      if done {
        Store(loc, e, lastEpoch);
        other, epoch := e, lastEpoch;
      } else {
        loc := NextLocation(locs, lastLoc);
        other, epoch := Swap(loc, e, lastEpoch);
      }
    }

    method Place(e0: E) returns (ghost lost: set<E>)
      requires Valid()
      modifies this`table, this`epochFlags, flags
      ensures Valid() && |lost| <= 1 && Contents() == old(Contents()) + {e0} - lost
    {
      hide *;
      lost := {};
      ghost var all := Contents() + {e0};
      var found, at := Search(ComputeHashes(hash, |table|, e0), e0, false);
      if found {
        Store(at, e0, true);
        return;
      }
      var e, loc: int, epoch := e0, -1, true;
      for depth := 0 to depthLimit
        invariant Valid() && Contents() + {e} == all
      {
        var done;
        done, e, loc, epoch := Round(e, loc, epoch);
        if done {
          assert Contents() == all;
          return;
        }
      }
      lost := {e} - Contents();
      assert Contents() == all - lost;
    }
  }
}
