/**
 The constant-space Merkle root of src/consensus/merkle.cpp, which block headers commit to, proved
 equal to the recursive tree hash that partial Merkle trees prove.
 */
module MerkleComputation {
  import opened Bits
  import opened MerkleTree
  import opened PartialMerkle

  /** `inner[level]` holds the hash of the last complete subtree of every size that `count` is made of. */
  ghost predicate Eager(H: PairHash, leaves: seq<Hash>, inner: seq<Hash>, count: nat) {
    forall level | 0 <= level < |inner| && (count / Pow2(level)) % 2 == 1 ::
      EagerAt(H, leaves, inner[level], count, level)
  }

  ghost predicate EagerAt(H: PairHash, leaves: seq<Hash>, hash: Hash, count: nat, level: nat) {
    count / Pow2(level) >= 1 && IsNode(H, leaves, hash, level, count / Pow2(level) - 1)
  }

  ghost predicate IsNode(H: PairHash, leaves: seq<Hash>, hash: Hash, level: nat, pos: nat) {
    pos < Width(|leaves|, level) && hash == CalcHash(H, leaves, level, pos)
  }

  /** Two siblings make their parent. */
  lemma Pair(H: PairHash, leaves: seq<Hash>, left: Hash, right: Hash, level: nat, pos: nat)
    requires IsNode(H, leaves, left, level, 2 * pos) && IsNode(H, leaves, right, level, 2 * pos + 1)
    ensures IsNode(H, leaves, H(left, right), level + 1, pos)
  {
    WidthIff(|leaves|, level, 2 * pos);
    WidthIff(|leaves|, level + 1, pos);
  }

  /** The last node of an odd level is paired with itself. */
  lemma Lone(H: PairHash, leaves: seq<Hash>, hash: Hash, level: nat, pos: nat)
    requires IsNode(H, leaves, hash, level, 2 * pos) && Width(|leaves|, level) == 2 * pos + 1
    ensures IsNode(H, leaves, H(hash, hash), level + 1, pos)
  {
    WidthIff(|leaves|, level, 2 * pos);
    WidthIff(|leaves|, level + 1, pos);
  }

  /** `count` is a multiple: its quotients at and above `level` follow from `q`. */
  lemma Quotient(count: nat, q: nat, level: nat)
    requires count == q * Pow2(level)
    ensures count / Pow2(level) == q
    ensures q % 2 == 0 ==> count == (q / 2) * Pow2(level + 1)
    ensures q > 0 ==> (count - 1) / Pow2(level) == q - 1
  {
    DivisionUnique(count, Pow2(level), q, 0);
    if q > 0 {
      assert count - 1 == (q - 1) * Pow2(level) + (Pow2(level) - 1);
      DivisionUnique(count - 1, Pow2(level), q - 1, Pow2(level) - 1);
    }
  }

  lemma OddQuotient(q: nat, a: nat, g: nat)
    requires a > 0 && g > 0 && q % 2 == 1
    ensures (2 * g * a) > 0 && (q * a) / (2 * g * a) == (q * a - 1) / (2 * g * a)
  {
    var f := 2 * g;
    var d, r := q / f, q % f;
    assert q == d * f + r;
    Regroup(d, g);
    assert r >= 1;
    Spread(d, f, r, a);
    Scaled(r + 1, f, a);
    Scaled(1, r, a);
    Spread(r, 1, 1, a);
    hide *;
    assert f * a > 0 && 0 <= r * a - 1 < f * a;
    DivisionUnique(q * a, f * a, d, r * a);
    DivisionUnique(q * a - 1, f * a, d, r * a - 1);
  }

  lemma Regroup(d: int, g: int)
    ensures d * (2 * g) == 2 * (d * g)
  {
  }

  lemma Spread(d: int, f: int, r: int, a: int)
    ensures (d * f + r) * a == d * (f * a) + r * a
  {
  }

  /** Counting one up to an odd multiple of 2^level changes no quotient above that level. */
  lemma QuotientAbove(count: nat, q: nat, level: nat, k: nat)
    requires count == q * Pow2(level) && q % 2 == 1 && k > level
    ensures (count - 1) / Pow2(k) == count / Pow2(k)
  {
    Pow2Add(k - level, level);
    OddQuotient(q, Pow2(level), Pow2(k - level - 1));
  }

  lemma EvenBelow(count: nat, q: nat, level: nat, k: nat)
    requires count == q * Pow2(level) && k < level
    ensures (count / Pow2(k)) % 2 == 0
  {
    var g := Pow2(level - k - 1);
    Pow2Add(level - k, k);
    assert Pow2(level - k) == 2 * g;
    hide *;
    var h := q * (2 * g);
    Spread(q, 2 * g, 0, Pow2(k));
    Regroup(q, g);
    Quotient(count, h, k);
    Twofold(h, q * g);
  }

  lemma Twofold(h: int, x: int)
    requires h == 2 * x
    ensures h % 2 == 0
  {
  }

  /** One more leaf, combined up to the level where `count` is odd, makes all eager hashes right again. */
  lemma EagerNext(H: PairHash, leaves: seq<Hash>, inner: seq<Hash>, hash: Hash, count: nat, q: nat, level: nat)
    requires count == q * Pow2(level) && q % 2 == 1 && level < |inner|
    requires count > 0 && Eager(H, leaves, inner, count - 1)
    requires IsNode(H, leaves, hash, level, q - 1)
    ensures Eager(H, leaves, inner[level := hash], count)
  {
    hide IsNode;
    var inner' := inner[level := hash];
    forall k | 0 <= k < |inner'| && (count / Pow2(k)) % 2 == 1 ensures EagerAt(H, leaves, inner'[k], count, k) {
      if k < level {
        EvenBelow(count, q, level, k);
      } else if k == level {
        Quotient(count, q, level);
      } else {
        QuotientAbove(count, q, level, k);
        assert EagerAt(H, leaves, inner[k], count - 1, k);
      }
    }
  }

  // Equal siblings

  /** The siblings `2 * pos` and `2 * pos + 1` exist and have the same hash. */
  ghost predicate TwinAt(H: PairHash, leaves: seq<Hash>, level: nat, pos: nat) {
    2 * pos + 1 < Width(|leaves|, level)
    && CalcHash(H, leaves, level, 2 * pos) == CalcHash(H, leaves, level, 2 * pos + 1)
  }

  /** The number of leaves it takes to complete a pair of siblings. */
  function PairEnd(level: nat, pos: nat): nat { (2 * pos + 2) * Pow2(level) }

  /** Some complete pair of equal siblings was met: one that ends before leaf `count`, or with it but
      below `level`. */
  ghost predicate Met(H: PairHash, leaves: seq<Hash>, count: nat, level: nat) {
    exists l: nat, p: nat :: TwinAt(H, leaves, l, p) && (PairEnd(l, p) < count || (PairEnd(l, p) == count && l < level))
  }

  lemma MetHere(H: PairHash, leaves: seq<Hash>, count: nat, level: nat, q: nat)
    requires count == q * Pow2(level) && q % 2 == 0 && q > 0
    ensures Met(H, leaves, count, level + 1) <==> Met(H, leaves, count, level) || TwinAt(H, leaves, level, q / 2 - 1)
  {
    hide TwinAt;
    assert PairEnd(level, q / 2 - 1) == count;
    if Met(H, leaves, count, level + 1) && !Met(H, leaves, count, level) {
      var l: nat, p: nat :|
        TwinAt(H, leaves, l, p) && (PairEnd(l, p) < count || (PairEnd(l, p) == count && l < level + 1));
      assert l == level;
      Cancel(2 * p + 2, q, Pow2(level));
    }
  }

  lemma MetAll(H: PairHash, leaves: seq<Hash>, count: nat, level: nat, q: nat)
    requires count == q * Pow2(level) && q % 2 == 1
    ensures Met(H, leaves, count + 1, 0) <==> Met(H, leaves, count, level)
  {
    forall l: nat, p: nat | PairEnd(l, p) == count ensures l < level { OddEnd(l, p, level, q); }
    hide TwinAt, PairEnd;
  }

  /** A pair of siblings cannot end with an odd multiple of the size of its nodes. */
  lemma OddEnd(l: nat, p: nat, level: nat, q: nat)
    requires PairEnd(l, p) == q * Pow2(level) && q % 2 == 1
    ensures l < level
  {
    if l >= level {
      Pow2Add(l - level, level);
      var f, m := Pow2(l - level), Pow2(level);
      hide Pow2;
      Spread(2 * p + 2, f, 0, m);
      Cancel((2 * p + 2) * f, q, m);
      Spread(2, p + 1, 0, f);
    }
  }

  /** Takes in one leaf, combining it with the eager hashes as long as they pair up. */
  method AddLeaf(H: PairHash, leaves: seq<Hash>, inner: array<Hash>, start: nat,
          alreadyMutated: bool) returns (mutated: bool)
    requires inner.Length == 32 && start < |leaves| && start + 1 < Pow2(32)
    requires Eager(H, leaves, inner[..], start) && (alreadyMutated <==> Met(H, leaves, start + 1, 0))
    modifies inner
    ensures Eager(H, leaves, inner[..], start + 1) && (mutated <==> Met(H, leaves, start + 2, 0))
  {
    hide Eager, Met, IsNode;
    var h, count, level := leaves[start], start + 1, 0;
    mutated := alreadyMutated;
    ghost var q := count;
    LeafNode(H, leaves, start);
    while (count / Pow2(level)) % 2 == 0
      invariant q > 0 && count == q * Pow2(level) && count == start + 1
      invariant IsNode(H, leaves, h, level, q - 1)
      invariant inner[..] == old(inner[..])
      invariant mutated <==> Met(H, leaves, count, level)
      decreases 32 - level
    {
      Quotient(count, q, level);
      SmallLevel(count, q, level);
      EagerSibling(H, leaves, inner[..], count, q, level);
      MetHere(H, leaves, count, level, q);
      TwinTest(H, leaves, inner[level], h, level, q / 2 - 1);
      Pair(H, leaves, inner[level], h, level, q / 2 - 1);
      mutated := mutated || inner[level] == h;
      h, level := H(inner[level], h), level + 1;
      q := q / 2;
    }
    Quotient(count, q, level);
    SmallLevel(count, q, level);
    EagerNext(H, leaves, inner[..], h, count, q, level);
    MetAll(H, leaves, count, level, q);
    inner[level] := h;
    assert inner[..] == old(inner[..])[level := h];
  }

  lemma LeafNode(H: PairHash, leaves: seq<Hash>, i: nat)
    requires i < |leaves|
    ensures IsNode(H, leaves, leaves[i], 0, i)
  {
    WidthIff(|leaves|, 0, i);
  }

  lemma SmallLevel(count: nat, q: nat, level: nat)
    requires count == q * Pow2(level) && q > 0 && count < Pow2(32)
    ensures level < 32
  {
    Above(q, Pow2(level));
    if level >= 32 { Pow2Monotone(32, level); }
  }

  /** The eager hash at a level where `count` is even is the left sibling of what was just completed. */
  lemma EagerSibling(H: PairHash, leaves: seq<Hash>, inner: seq<Hash>, count: nat, q: nat, level: nat)
    requires count == q * Pow2(level) && q % 2 == 0 && q > 0 && level < |inner|
    requires Eager(H, leaves, inner, count - 1)
    ensures IsNode(H, leaves, inner[level], level, 2 * (q / 2 - 1))
  {
    hide IsNode, Pow2;
    Quotient(count, q, level);
    assert ((count - 1) / Pow2(level)) % 2 == 1;
    assert EagerAt(H, leaves, inner[level], count - 1, level);
  }

  lemma TwinTest(H: PairHash, leaves: seq<Hash>, left: Hash, right: Hash, level: nat, pos: nat)
    requires IsNode(H, leaves, left, level, 2 * pos) && IsNode(H, leaves, right, level, 2 * pos + 1)
    ensures left == right <==> TwinAt(H, leaves, level, pos)
  {
  }

  // The final sweep

  /** The sweep stands at the last node of `level`, and no level below is the top. */
  ghost predicate Sweeping(H: PairHash, leaves: seq<Hash>, h: Hash, level: nat, q: nat) {
    && Width(|leaves|, level) == q && q > 0 && IsNode(H, leaves, h, level, q - 1)
    && forall k | 0 <= k < level :: Width(|leaves|, k) > 1
  }

  /** At an odd level that is not the top, the last node is paired with itself. */
  lemma SweepOdd(H: PairHash, leaves: seq<Hash>, h: Hash, level: nat, q: nat)
    requires Sweeping(H, leaves, h, level, q) && q % 2 == 1 && q != 1
    ensures Sweeping(H, leaves, H(h, h), level + 1, (q + 1) / 2)
  {
    hide IsNode, Width;
    WidthHalves(|leaves|, level);
    Lone(H, leaves, h, level, (q - 1) / 2);
  }

  /** At an even level the eager hash is its left sibling, provided the leaves do not fill that level. */
  lemma SweepEven(H: PairHash, leaves: seq<Hash>, inner: seq<Hash>, h: Hash, level: nat, q: nat)
    requires Sweeping(H, leaves, h, level, q) && q % 2 == 0
    requires Eager(H, leaves, inner, |leaves|) && level < |inner| && |leaves| < q * Pow2(level)
    ensures Sweeping(H, leaves, H(inner[level], h), level + 1, q / 2)
  {
    hide IsNode, Width, Pow2, CalcHash;
    var n := |leaves|;
    SweepQuotient(n, level, q);
    assert EagerAt(H, leaves, inner[level], n, level);
    WidthHalves(n, level);
    Pair(H, leaves, inner[level], h, level, q / 2 - 1);
  }

  lemma SweepQuotient(n: nat, level: nat, q: nat)
    requires q > 0 && Width(n, level) == q && n < q * Pow2(level)
    ensures n / Pow2(level) == q - 1
  {
    hide *;
    WidthIff(n, level, q - 1);
    Floor(n, Pow2(level), q - 1);
  }

  lemma Floor(n: nat, m: nat, k: int)
    requires k * m <= n < (k + 1) * m
    ensures n / m == k
  {
    DivisionUnique(n, m, k, n - k * m);
  }

  lemma SweepTop(H: PairHash, leaves: seq<Hash>, h: Hash, level: nat)
    requires leaves != [] && Sweeping(H, leaves, h, level, 1)
    ensures h == MerkleRoot(H, leaves)
  {
    var top := Height(|leaves|);
    RootExists(|leaves|, top);
    assert top == level;
  }

  /** The first odd level: the eager hash there covers the last leaves, and they fill it. */
  lemma SweepStart(H: PairHash, leaves: seq<Hash>, inner: seq<Hash>, level: nat, q: nat)
    requires Eager(H, leaves, inner, |leaves|) && level < |inner|
    requires |leaves| == q * Pow2(level) && q % 2 == 1
    requires forall k | 0 <= k < level :: Width(|leaves|, k) > 1
    ensures Sweeping(H, leaves, inner[level], level, q)
  {
    Quotient(|leaves|, q, level);
    assert EagerAt(H, leaves, inner[level], |leaves|, level);
    FullWidth(|leaves|, level, q);
  }

  lemma FullWidth(n: nat, level: nat, q: nat)
    requires n == q * Pow2(level)
    ensures Width(n, level) == q
  {
    assert n + Pow2(level) - 1 == q * Pow2(level) + (Pow2(level) - 1);
    DivisionUnique(n + Pow2(level) - 1, Pow2(level), q, Pow2(level) - 1);
  }

  /** MerkleComputation, as far as the root and the mutation flag go: the root is the recursive tree hash,
      and the flag tells whether any complete pair of siblings is equal. The counter has 32 bits; once it wraps
      around to 0, no bit stops the loops that test it, and they run past the end of `inner`. That happens
      if and only if there are more than 2^31 leaves. */
  method ComputeMerkleRoot(H: PairHash, leaves: seq<Hash>) returns (ended: bool, root: Hash, mutated: bool)
    ensures ended <==> |leaves| <= Pow2(31)
    ensures leaves == [] ==> root == NULL_HASH && !mutated
    ensures ended && leaves != [] ==> root == MerkleRoot(H, leaves)
    ensures ended && leaves != [] ==> (mutated <==> Met(H, leaves, |leaves| + 1, 0))
  {
    hide *;
    Powers();
    if leaves == [] { return true, NULL_HASH, false; }
    var inner := new Hash[32];
    var count := 0;
    mutated := false;
    NothingYet(H, leaves, inner[..]);
    while count < |leaves|
      invariant count <= |leaves| && count < Pow2(32)
      invariant Eager(H, leaves, inner[..], count) && (mutated <==> Met(H, leaves, count + 1, 0))
    {
      Wraps(count + 1);
      if Wrap32(count + 1) == 0 { return false, NULL_HASH, mutated; }
      mutated := AddLeaf(H, leaves, inner, count, mutated);
      count := count + 1;
    }
    ended, root := Sweep(H, leaves, inner[..]);
  }

  function Wrap32(x: nat): nat { x % Pow2(32) }

  lemma Wraps(x: nat)
    requires 0 < x <= Pow2(32)
    ensures Wrap32(x) == if x == Pow2(32) then 0 else x
  {
    DivisionUnique(x, Pow2(32), if x == Pow2(32) then 1 else 0, if x == Pow2(32) then 0 else x);
  }

  lemma Powers()
    ensures 0 < 2 * Pow2(31) == Pow2(32)
  {
    Pow2Add(1, 31);
  }

  lemma NothingYet(H: PairHash, leaves: seq<Hash>, inner: seq<Hash>)
    ensures Eager(H, leaves, inner, 0) && !Met(H, leaves, 1, 0)
  {
    forall l: nat, p: nat ensures PairEnd(l, p) >= 1 {
      Above(2 * p + 2, Pow2(l));
    }
    forall level: nat ensures 0 / Pow2(level) == 0 { DivisionUnique(0, Pow2(level), 0, 0); }
  }

  /** Reduces the eager hashes to the root, unless the counter wraps around on the way. */
  method Sweep(H: PairHash, leaves: seq<Hash>, inner: seq<Hash>) returns (ended: bool, h: Hash)
    requires 0 < |leaves| < Pow2(32) && |inner| == 32 && Eager(H, leaves, inner, |leaves|)
    ensures ended <==> |leaves| <= Pow2(31)
    ensures ended ==> h == MerkleRoot(H, leaves)
  {
    hide *;
    var count: nat, level: nat := |leaves|, 0;
    ghost var q: nat := count;
    PowZero();
    while (count / Pow2(level)) % 2 == 0
      invariant q > 0 && count == |leaves| == q * Pow2(level)
      invariant forall k | 0 <= k < level :: Width(|leaves|, k) > 1
      decreases q
    {
      Quotient(count, q, level);
      FullWidth(count, level, q);
      q, level := q / 2, level + 1;
    }
    Quotient(count, q, level);
    SmallLevel(count, q, level);
    SweepStart(H, leaves, inner, level, q);
    h := inner[level];
    while count != Pow2(level)
      invariant count == q * Pow2(level) && q % 2 == 1 && count < Pow2(32)
      invariant Sweeping(H, leaves, h, level, q)
      decreases q
    {
      ended, h, level, count, q := SweepUp(H, leaves, inner, h, level, count, q);
      if !ended { return; }
    }
    Cancel(q, 1, Pow2(level));
    SweepTop(H, leaves, h, level);
    SweepFits(H, leaves, h, level);
    ended := true;
  }

  /** A sweep that reached the top without wrapping around had at most 2^31 leaves. */
  lemma SweepFits(H: PairHash, leaves: seq<Hash>, h: Hash, level: nat)
    requires Sweeping(H, leaves, h, level, 1) && Pow2(level) < Pow2(32)
    ensures |leaves| <= Pow2(31)
  {
    hide IsNode, Pow2;
    WidthIff(|leaves|, level, 1);
    if level >= 32 { Pow2Monotone(32, level); }
    Pow2Monotone(level, 31);
  }

  lemma PowZero()
    ensures Pow2(0) == 1
  {
  }

  /** Rounding up to the next even level covers all leaves; if the counter wraps around, it wraps to 0, and there are
      more than 2^31 leaves. */
  lemma SweepBounds(n: nat, level: nat, q: nat)
    requires Width(n, level) == q && q % 2 == 1 && q != 1 && q * Pow2(level) < Pow2(32)
    ensures n < q * Pow2(level) + Pow2(level) == (q + 1) / 2 * Pow2(level + 1) <= Pow2(32)
    ensures q * Pow2(level) + Pow2(level) == Pow2(32) ==> n > Pow2(31)
  {
    hide *;
    WidthIff(n, level, q);
    WidthIff(n, level, q - 1);
    SmallLevel(q * Pow2(level), q, level);
    Pow2Add(32 - level, level);
    Uncancel(q, Pow2(32 - level), Pow2(level));
    TwoLevels(level, q);
    Pow2Monotone(level + 1, 31);
    Powers();
    Doubles(level);
    RoundUp(n, q, Pow2(level), Pow2(32 - level), Pow2(31));
  }

  lemma Doubles(level: nat)
    ensures Pow2(level + 1) == 2 * Pow2(level)
  {
  }

  lemma TwoLevels(level: nat, q: nat)
    requires level < 32 && 3 <= q < Pow2(32 - level)
    ensures level <= 30
  {
  }

  lemma RoundUp(n: nat, q: nat, a: nat, big: nat, half: nat)
    requires a > 0 && q % 2 == 1 && q < big && (q - 1) * a < n <= q * a && 2 * a <= half && big * a == 2 * half
    ensures n < q * a + a == (q + 1) / 2 * (2 * a) <= big * a
    ensures q * a + a == big * a ==> n > half
  {
    var w := (q + 1) / 2;
    assert q + 1 == 2 * w;
    Scaled(q + 1, big, a);
    HalfOf(w, a);
    Spread(q, 1, 1, a);
    Spread(q, 1, -1, a);
    Rounded(n, q * a, a, big * a, half);
  }

  lemma HalfOf(w: int, a: int)
    ensures w * (2 * a) == (2 * w) * a
  {
  }

  lemma Rounded(n: int, qa: int, a: int, all: int, half: int)
    requires a > 0 && qa - a < n <= qa && 2 * a <= half && all == 2 * half && qa + a <= all
    ensures n < qa + a && (qa + a == all ==> n > half)
  {
  }

  lemma Uncancel(a: int, b: int, m: int)
    requires m > 0 && a * m < b * m
    ensures a < b
  {
    if a >= b { Scaled(b, a, m); }
  }

  /** One round of the sweep: the last node is paired with itself, then with its left siblings. */
  method SweepUp(H: PairHash, leaves: seq<Hash>, inner: seq<Hash>, h: Hash, level: nat, count: nat, ghost q: nat)
    returns (ended: bool, h': Hash, level': nat, count': nat, ghost q': nat)
    requires 0 < |leaves| < Pow2(32) && |inner| == 32 && Eager(H, leaves, inner, |leaves|)
    requires count == q * Pow2(level) && q % 2 == 1 && count != Pow2(level) && count < Pow2(32)
    requires Sweeping(H, leaves, h, level, q)
    ensures !ended ==> |leaves| > Pow2(31)
    ensures ended ==> count' == q' * Pow2(level') < Pow2(32) && q' % 2 == 1 && q' < q
    ensures ended ==> Sweeping(H, leaves, h', level', q')
  {
    hide *;
    SweepFacts(H, leaves, h, level, q);
    Cancelled(q, Pow2(level));
    SweepBounds(|leaves|, level, q);
    SweepOdd(H, leaves, h, level, q);
    h', level', q' := H(h, h), level + 1, (q + 1) / 2;
    Wraps(count + Pow2(level));
    count' := Wrap32(count + Pow2(level));
    if count' == 0 { return false, h', level', count', q'; }
    while (count' / Pow2(level')) % 2 == 0
      invariant q' > 0 && q' < q && count' == q' * Pow2(level') && |leaves| < count' < Pow2(32)
      invariant Sweeping(H, leaves, h', level', q')
      decreases q'
    {
      Quotient(count', q', level');
      SmallLevel(count', q', level');
      SweepEven(H, leaves, inner, h', level', q');
      h', level', q' := H(inner[level'], h'), level' + 1, q' / 2;
    }
    Quotient(count', q', level');
    ended := true;
  }

  lemma SweepFacts(H: PairHash, leaves: seq<Hash>, h: Hash, level: nat, q: nat)
    requires Sweeping(H, leaves, h, level, q)
    ensures Width(|leaves|, level) == q > 0
  {
  }

  lemma Cancelled(q: nat, m: nat)
    requires q * m != m
    ensures q != 1
  {
  }
}
