/** The rolling bloom filter (CRollingBloomFilter in src/bloom.cpp). */
module RollingBloom {
  type Key = seq<bv8>

  // Bits of a word

  predicate Bit(x: bv64, b: bv64)
    requires b < 64
  {
    (x >> b) & 1 == 1
  }

  function Or(x: bv64, y: bv64): bv64 { x | y }

  function And(x: bv64, y: bv64): bv64 { x & y }

  function Xor(x: bv64, y: bv64): bv64 { x ^ y }

  /** All ones, or none. */
  function Mask(v: bool): bv64 { if v then 0 - 1 else 0 }

  /** The word with one bit replaced. */
  function Write(x: bv64, v: bv64, b: bv64): bv64
    requires b < 64
  {
    (x & !((1 as bv64) << b)) | (v << b)
  }

  lemma OrWord(x: bv64, y: bv64, b: bv64)
    requires b < 64
    ensures Bit(x | y, b) == (Bit(x, b) || Bit(y, b))
  {
  }

  lemma OrBit(x: bv64, y: bv64, b: bv64)
    requires b < 64
    ensures Bit(Or(x, y), b) == (Bit(x, b) || Bit(y, b))
  {
    hide Bit;
    OrWord(x, y, b);
  }

  lemma AndWord(x: bv64, y: bv64, b: bv64)
    requires b < 64
    ensures Bit(x & y, b) == (Bit(x, b) && Bit(y, b))
  {
  }

  lemma AndBit(x: bv64, y: bv64, b: bv64)
    requires b < 64
    ensures Bit(And(x, y), b) == (Bit(x, b) && Bit(y, b))
  {
    hide Bit;
    AndWord(x, y, b);
  }

  lemma XorWord(x: bv64, y: bv64, b: bv64)
    requires b < 64
    ensures Bit(x ^ y, b) == (Bit(x, b) != Bit(y, b))
  {
  }

  lemma XorBit(x: bv64, y: bv64, b: bv64)
    requires b < 64
    ensures Bit(Xor(x, y), b) == (Bit(x, b) != Bit(y, b))
  {
    hide Bit;
    XorWord(x, y, b);
  }

  lemma MaskBit(v: bool, b: bv64)
    requires b < 64
    ensures Bit(Mask(v), b) == v
  {
  }

  lemma WriteWord(x: bv64, v: bv64, b: bv64, c: bv64)
    requires b < 64 && c < 64 && v <= 1
    ensures Bit((x & !((1 as bv64) << b)) | (v << b), c) == if c == b then v == 1 else Bit(x, c)
  {
  }

  lemma WriteBit(x: bv64, v: bv64, b: bv64, c: bv64)
    requires b < 64 && c < 64 && v <= 1
    ensures Bit(Write(x, v, b), c) == if c == b then v == 1 else Bit(x, c)
  {
    hide Bit;
    WriteWord(x, v, b, c);
  }

  // Cells

  /** The generation a cell belongs to: two bits, in two words. */
  function Generation(p1: bv64, p2: bv64, b: bv64): (g: nat)
    requires b < 64
    ensures g <= 3
  {
    (if Bit(p1, b) then 1 else 0) + (if Bit(p2, b) then 2 else 0)
  }

  /** A cell is set when one of its bits is. */
  lemma SetIff(p1: bv64, p2: bv64, b: bv64)
    requires b < 64
    ensures Bit(Or(p1, p2), b) <==> Generation(p1, p2, b) != 0
  {
    hide Bit, Or;
    OrBit(p1, p2, b);
  }

  /** The two bits of a generation. */
  function Low(g: nat): (v: bv64)
    ensures v <= 1 && (v == 1 <==> g % 2 == 1)
  {
    if g % 2 == 1 then 1 else 0
  }

  function High(g: nat): (v: bv64)
    ensures v <= 1 && (v == 1 <==> g / 2 == 1)
  {
    if g / 2 == 1 then 1 else 0
  }

  function WipeMask(p1: bv64, p2: bv64, g: nat): bv64 { Or(Xor(p1, Mask(g % 2 == 1)), Xor(p2, Mask(g / 2 == 1))) }

  /** Wiping clears the cells of one generation, 64 at a time. */
  lemma Wiped(p1: bv64, p2: bv64, g: nat, b: bv64)
    requires b < 64 && 1 <= g <= 3
    ensures var mask := WipeMask(p1, p2, g);
      Generation(And(p1, mask), And(p2, mask), b) == if Generation(p1, p2, b) == g then 0 else Generation(p1, p2, b)
  {
    hide Bit, Or, And, Xor, Mask;
    var m1, m2, mask := Mask(g % 2 == 1), Mask(g / 2 == 1), WipeMask(p1, p2, g);
    MaskBit(g % 2 == 1, b);
    MaskBit(g / 2 == 1, b);
    XorBit(p1, m1, b);
    XorBit(p2, m2, b);
    OrBit(Xor(p1, m1), Xor(p2, m2), b);
    AndBit(p1, mask, b);
    AndBit(p2, mask, b);
  }

  /** Writing a generation into a cell changes no other cell of the words. */
  lemma Written(p1: bv64, p2: bv64, g: nat, b: bv64, c: bv64)
    requires b < 64 && c < 64 && 1 <= g <= 3
    ensures Generation(Write(p1, Low(g), b), Write(p2, High(g), b), c) == if c == b then g else Generation(p1, p2, c)
  {
    hide Bit, Write, Low, High;
    WriteBit(p1, Low(g), b, c);
    WriteBit(p2, High(g), b, c);
  }

  /** The cell a hash chooses: a pair of words, and a bit. */
  type Cell = (nat, bv64)

  function CellOf(h: bv32, size: nat): (c: Cell)
    requires size > 0 && size % 2 == 0
    ensures 2 * c.0 + 1 < size && c.1 < 64
  {
    var pos := ((h >> 6) as nat) % size;
    (pos / 2, (h & 0x3F) as bv64)
  }

  ghost predicate InRange(c: Cell, size: nat) { 2 * c.0 + 1 < size && c.1 < 64 }

  ghost function At(data: seq<bv64>, c: Cell): (g: nat)
    requires InRange(c, |data|)
  {
    Generation(data[2 * c.0], data[2 * c.0 + 1], c.1)
  }

  /** No cell is set. */
  ghost predicate Blank(data: seq<bv64>) { forall c: Cell | InRange(c, |data|) :: At(data, c) == 0 }

  lemma AllBlank(data: seq<bv64>)
    requires forall i | 0 <= i < |data| :: data[i] == 0
    ensures Blank(data)
  {
    forall c: Cell | InRange(c, |data|) ensures At(data, c) == 0 { NoBits(c.1); }
  }

  lemma NoBits(bit: bv64)
    requires bit < 64
    ensures Generation(0, 0, bit) == 0
  {
  }

  function Next(g: nat): nat { if g == 3 then 1 else g + 1 }

  /** All cells of one generation are cleared in the words below `p`, and nothing else has changed. */
  ghost predicate WipedBelow(was: seq<bv64>, now: seq<bv64>, g: nat, p: nat) {
    && |now| == |was| && (forall k | p <= k < |now| :: now[k] == was[k])
    && forall c: Cell | InRange(c, |now|) && 2 * c.0 < p :: At(now, c) == if At(was, c) == g then 0 else At(was, c)
  }

  lemma WipedPair(was: seq<bv64>, now: seq<bv64>, g: nat, p: nat)
    requires WipedBelow(was, now, g, p) && p + 1 < |now| && p % 2 == 0 && 1 <= g <= 3
    ensures var mask := WipeMask(now[p], now[p + 1], g);
      WipedBelow(was, now[p := And(now[p], mask)][p + 1 := And(now[p + 1], mask)], g, p + 2)
  {
    hide Bit, Or, And, Xor, Mask, WipeMask, Generation;
    var mask := WipeMask(now[p], now[p + 1], g);
    var next := now[p := And(now[p], mask)][p + 1 := And(now[p + 1], mask)];
    forall c: Cell | InRange(c, |now|) && 2 * c.0 < p + 2
      ensures At(next, c) == if At(was, c) == g then 0 else At(was, c)
    {
      if 2 * c.0 == p {
        Wiped(now[p], now[p + 1], g, c.1);
      } else {
        assert At(next, c) == At(now, c);
      }
    }
  }

  /** Some cells have been given a generation. */
  ghost predicate Overwritten(was: seq<bv64>, now: seq<bv64>, g: nat) {
    |now| == |was| && forall c: Cell | InRange(c, |now|) :: At(now, c) == At(was, c) || At(now, c) == g
  }

  /** Where the current, the last and the last but one generation begin in the history. */
  datatype Starts = Starts(start0: nat, start1: nat, start2: nat)

  /** What a cell of the key inserted at `i` may hold: not nothing, nor the generation wiped next, unless the key is
      that old. */
  ghost predicate Holds(i: nat, s: Starts, gen: nat, g: nat) {
    && (i >= s.start2 ==> g != 0)
    && (i >= s.start1 ==> g != Next(gen))
    && (i >= s.start0 ==> g == gen)
  }

  /** The cells of a key. */
  ghost function Cells(hash: (nat, nat, Key) -> bv32, funcs: nat, tweak: nat, size: nat, key: Key): (cs: seq<Cell>)
    requires size > 0 && size % 2 == 0
    ensures |cs| == funcs
    ensures forall n | 0 <= n < funcs :: cs[n] == CellOf(hash(n, tweak, key), size) && InRange(cs[n], size)
  {
    seq(funcs, n requires 0 <= n < funcs => CellOf(hash(n, tweak, key), size))
  }

  ghost predicate AllHold(data: seq<bv64>, cells: seq<Cell>, i: nat, s: Starts, gen: nat) {
    forall n | 0 <= n < |cells| :: InRange(cells[n], |data|) && Holds(i, s, gen, At(data, cells[n]))
  }

  /** Wiping the next generation leaves the cells of the two newer ones. */
  lemma TurnKeeps(was: seq<bv64>, now: seq<bv64>, cells: seq<Cell>, i: nat, s: Starts, gen: nat, size: nat)
    requires AllHold(was, cells, i, s, gen) && 1 <= gen <= 3 && WipedBelow(was, now, Next(gen), |was|) && i < size
    requires s.start2 <= s.start1 <= s.start0
    ensures AllHold(now, cells, i, Starts(size, s.start0, s.start1), Next(gen))
  {
    hide At;
    forall n | 0 <= n < |cells|
      ensures InRange(cells[n], |now|) && Holds(i, Starts(size, s.start0, s.start1), Next(gen), At(now, cells[n]))
    {
      assert Holds(i, s, gen, At(was, cells[n]));
    }
  }

  /** The first cells have been given a generation. */
  ghost predicate FirstSet(was: seq<bv64>, now: seq<bv64>, cells: seq<Cell>, g: nat, n: nat) {
    && |now| == |was| && n <= |cells|
    && (forall k | 0 <= k < |cells| :: InRange(cells[k], |now|))
    && (forall c: Cell | InRange(c, |now|) :: At(now, c) == if c in cells[..n] then g else At(was, c))
  }

  lemma NextSet(was: seq<bv64>, now: seq<bv64>, next: seq<bv64>, cells: seq<Cell>, g: nat, n: nat)
    requires FirstSet(was, now, cells, g, n) && n < |cells| && |next| == |now|
    requires forall d: Cell | InRange(d, |now|) :: At(next, d) == if d == cells[n] then g else At(now, d)
    ensures FirstSet(was, next, cells, g, n + 1)
  {
    hide At;
    assert cells[..n + 1] == cells[..n] + [cells[n]];
  }

  lemma SetOverwrites(was: seq<bv64>, now: seq<bv64>, cells: seq<Cell>, g: nat)
    requires FirstSet(was, now, cells, g, |cells|)
    ensures Overwritten(was, now, g)
  {
  }

  lemma AllSetHold(was: seq<bv64>, now: seq<bv64>, cells: seq<Cell>, i: nat, s: Starts, gen: nat)
    requires FirstSet(was, now, cells, gen, |cells|) && 1 <= gen <= 3
    ensures AllHold(now, cells, i, s, gen)
  {
    hide At;
    assert cells[..|cells|] == cells;
  }

  lemma AddKeeps(was: seq<bv64>, now: seq<bv64>, cells: seq<Cell>, i: nat, s: Starts, gen: nat)
    requires AllHold(was, cells, i, s, gen) && 1 <= gen <= 3 && Overwritten(was, now, gen)
    ensures AllHold(now, cells, i, s, gen)
  {
    hide At;
    forall n | 0 <= n < |cells| ensures InRange(cells[n], |now|) && Holds(i, s, gen, At(now, cells[n])) {
      assert Holds(i, s, gen, At(was, cells[n]));
    }
  }

  class RollingBloomFilter {
    /** The hash of a key, for the number of the hash function and the tweak. */
    const hash: (nat, nat, Key) -> bv32
    const nHashFuncs: nat
    const nElements: nat
    var nEntriesThisGeneration: nat
    var nGeneration: nat
    var data: seq<bv64>
    var nTweak: nat
    /** The keys inserted since the last reset. */
    ghost var history: seq<Key>
    ghost var starts: Starts

    function EntriesPerGeneration(): nat { (nElements + 1) / 2 }

    ghost function CellsOf(key: Key): seq<Cell>
      requires |data| > 0 && |data| % 2 == 0
      reads this
    {
      Cells(hash, nHashFuncs, nTweak, |data|, key)
    }

    ghost predicate Valid()
      reads this
    {
      && |data| > 0 && |data| % 2 == 0 && 1 <= nGeneration <= 3
      && starts.start2 <= starts.start1 <= starts.start0 && starts.start0 + nEntriesThisGeneration == |history|
      && (starts.start1 > 0 ==> starts.start0 - starts.start1 == EntriesPerGeneration())
      && (starts.start2 > 0 ==> starts.start1 - starts.start2 == EntriesPerGeneration())
      && forall i: nat | i < |history| :: AllHold(data, CellsOf(history[i]), i, starts, nGeneration)
    }

    constructor (hash: (nat, nat, Key) -> bv32, nElements: nat, nHashFuncs: nat, words: nat, nTweak: nat)
      requires words > 0
      ensures Valid() && history == [] && this.nElements == nElements && this.nHashFuncs == nHashFuncs
      ensures |data| == 2 * words && Blank(data) && nEntriesThisGeneration == 0 && nGeneration == 1
    {
      this.hash, this.nElements, this.nHashFuncs, this.nTweak := hash, nElements, nHashFuncs, nTweak;
      nEntriesThisGeneration, nGeneration, data := 0, 1, seq(2 * words, _ => 0);
      history, starts := [], Starts(0, 0, 0);
      new;
      AllBlank(data);
    }

    /** Forgets everything: no cell is set, and so no key is found as long as there is a hash function. */
    method Reset(tweak: nat)
      requires Valid()
      modifies this
      ensures Valid() && history == [] && |data| == |old(data)| && nTweak == tweak
      ensures Blank(data) && nEntriesThisGeneration == 0 && nGeneration == 1
      ensures nHashFuncs > 0 ==> forall key :: !AllSet(key)
    {
      nTweak, nEntriesThisGeneration, nGeneration := tweak, 0, 1;
      data := seq(|data|, _ => 0);
      history, starts := [], Starts(0, 0, 0);
      AllBlank(data);
      hide At;
      forall key | nHashFuncs > 0 ensures !AllSet(key) {
        var c := CellsOf(key)[0];
        assert At(data, c) == 0;
      }
    }

    /** Whether all cells of a key are set. */
    ghost predicate AllSet(key: Key)
      requires |data| > 0 && |data| % 2 == 0
      reads this
    {
      forall n | 0 <= n < nHashFuncs :: At(data, CellsOf(key)[n]) != 0
    }

    /** The last `nElements` keys are remembered, and up to half as many before them. */
    lemma Recent(i: nat)
      requires Valid() && i < |history|
      requires |history| - nElements <= i || |history| - (2 * EntriesPerGeneration() + nEntriesThisGeneration) <= i
      ensures AllSet(history[i])
    {
      hide At;
      assert i >= starts.start2;
      assert AllHold(data, CellsOf(history[i]), i, starts, nGeneration);
    }

    method Contains(key: Key) returns (found: bool)
      requires Valid()
      ensures found <==> AllSet(key)
      ensures key in history[if |history| > nElements then |history| - nElements else 0..] ==> found
    {
      hide Bit, Or;
      var n := 0;
      found := true;
      while n < nHashFuncs && found
        invariant 0 <= n <= nHashFuncs
        invariant found <==> forall k | 0 <= k < n :: At(data, CellsOf(key)[k]) != 0
      {
        var c := CellOf(hash(n, nTweak, key), |data|);
        assert c == CellsOf(key)[n];
        SetIff(data[2 * c.0], data[2 * c.0 + 1], c.1);
        if !Bit(Or(data[2 * c.0], data[2 * c.0 + 1]), c.1) { found := false; }
        n := n + 1;
      }
      ghost var k := if |history| > nElements then |history| - nElements else 0;
      if key in history[k..] {
        ghost var j :| 0 <= j < |history| - k && history[k..][j] == key;
        Recent(k + j);
      }
    }

    /** Remembers a key. When a generation is full, the next one begins and its old cells are cleared; then the cells
        of the key get the current generation, and no other cell changes. */
    method Insert(key: Key)
      requires Valid()
      modifies this
      ensures Valid() && history == old(history) + [key] && |data| == |old(data)| && nTweak == old(nTweak)
      ensures var turned := old(nEntriesThisGeneration) == EntriesPerGeneration();
        && nGeneration == (if turned then Next(old(nGeneration)) else old(nGeneration))
        && forall c: Cell | InRange(c, |data|) :: At(data, c) ==
             if c in CellsOf(key) then nGeneration
             else if turned && At(old(data), c) == nGeneration then 0 else At(old(data), c)
    {
      hide At;
      if nEntriesThisGeneration == EntriesPerGeneration() {
        Turn();
      }
      AddCells(key);
    }

    /** Starts a generation, wiping the cells that used its number three generations ago. */
    method Turn()
      requires Valid() && nEntriesThisGeneration == EntriesPerGeneration()
      modifies this
      ensures Valid() && history == old(history) && nEntriesThisGeneration == 0 && nTweak == old(nTweak)
      ensures nGeneration == Next(old(nGeneration)) && WipedBelow(old(data), data, nGeneration, |old(data)|)
    {
      hide At, AllHold, Holds, WipedBelow;
      ghost var was, gen := data, nGeneration;
      nEntriesThisGeneration := 0;
      nGeneration := nGeneration + 1;
      if nGeneration == 4 { nGeneration := 1; }
      Wipe();
      ghost var s := starts;
      starts := Starts(|history|, starts.start0, starts.start1);
      forall i: nat | i < |history| ensures AllHold(data, CellsOf(history[i]), i, starts, nGeneration) {
        TurnKeeps(was, data, CellsOf(history[i]), i, s, gen, |history|);
      }
    }

    method Wipe()
      requires |data| > 0 && |data| % 2 == 0 && 1 <= nGeneration <= 3
      modifies this`data
      ensures WipedBelow(old(data), data, nGeneration, |old(data)|) && |data| == |old(data)|
    {
      ghost var was := data;
      var p := 0;
      while p < |data|
        invariant 0 <= p <= |data| == |was| && p % 2 == 0 && WipedBelow(was, data, nGeneration, p)
      {
        hide And, WipeMask, WipedBelow;
        var mask := WipeMask(data[p], data[p + 1], nGeneration);
        WipedPair(was, data, nGeneration, p);
        data := data[p := And(data[p], mask)][p + 1 := And(data[p + 1], mask)];
        p := p + 2;
      }
    }

    method AddCells(key: Key)
      requires Valid()
      modifies this
      ensures Valid() && history == old(history) + [key] && nGeneration == old(nGeneration) && nTweak == old(nTweak)
      ensures |data| == |old(data)| && FirstSet(old(data), data, CellsOf(key), nGeneration, nHashFuncs)
    {
      hide At, AllHold, Holds, FirstSet;
      ghost var was := data;
      SetCells(key);
      assert Overwritten(was, data, nGeneration) by { SetOverwrites(was, data, CellsOf(key), nGeneration); }
      nEntriesThisGeneration := nEntriesThisGeneration + 1;
      history := history + [key];
      forall i: nat | i < |history| ensures AllHold(data, CellsOf(history[i]), i, starts, nGeneration) {
        if i < |old(history)| {
          AddKeeps(was, data, CellsOf(history[i]), i, starts, nGeneration);
        } else {
          AllSetHold(was, data, CellsOf(key), i, starts, nGeneration);
        }
      }
    }

    method SetCells(key: Key)
      requires |data| > 0 && |data| % 2 == 0 && 1 <= nGeneration <= 3
      modifies this`data
      ensures |data| == |old(data)| && FirstSet(old(data), data, CellsOf(key), nGeneration, nHashFuncs)
    {
      ghost var was, cells := data, CellsOf(key);
      for n := 0 to nHashFuncs
        invariant |data| == |was| && FirstSet(was, data, cells, nGeneration, n)
      {
        hide At, FirstSet;
        ghost var now := data;
        SetCell(CellOf(hash(n, nTweak, key), |data|));
        NextSet(was, now, data, cells, nGeneration, n);
      }
    }

    method SetCell(c: Cell)
      requires InRange(c, |data|) && 1 <= nGeneration <= 3
      modifies this`data
      ensures |data| == |old(data)|
      ensures forall d: Cell | InRange(d, |data|) :: At(data, d) == if d == c then nGeneration else At(old(data), d)
    {
      hide Generation, Write, Bit, Low, High;
      var p1, p2 := data[2 * c.0], data[2 * c.0 + 1];
      forall b: bv64 | b < 64
        ensures Generation(Write(p1, Low(nGeneration), c.1), Write(p2, High(nGeneration), c.1), b)
             == if b == c.1 then nGeneration else Generation(p1, p2, b)
      {
        Written(p1, p2, nGeneration, c.1, b);
      }
      data := data[2 * c.0 := Write(p1, Low(nGeneration), c.1)];
      data := data[2 * c.0 + 1 := Write(p2, High(nGeneration), c.1)];
    }
  }
}
