/**
 Partial Merkle trees: the encoder and the decoder of src/merkleblock.cpp, in the format of the
 "Partial Merkle branch format" section of BIP 37. Hashes are numbers, 0 is the null hash, and
 the pair hash is a parameter of everything here.
 */
module MerkleTree {
  import opened Bits

  type Hash = nat
  type PairHash = (Hash, Hash) -> Hash

  /** CalcTreeWidth: the number of nodes at a height of a tree over `n` leaves. */
  function Width(n: nat, height: nat): nat {
    (n + Pow2(height) - 1) / Pow2(height)
  }

  /** A position is in the tree exactly when its first leaf is. */
  lemma WidthIff(n: nat, height: nat, pos: nat)
    ensures pos < Width(n, height) <==> pos * Pow2(height) < n
  {
    var m := Pow2(height);
    var w := Width(n, height);
    assert w * m <= n + m - 1 < w * m + m;
    if pos < w { Scaled(pos + 1, w, m); } else { Scaled(w, pos, m); }
  }

  lemma Children(n: nat, height: nat, pos: nat)
    requires height > 0 && pos < Width(n, height)
    ensures 2 * pos < Width(n, height - 1)
  {
    WidthIff(n, height, pos);
    WidthIff(n, height - 1, 2 * pos);
  }

  /** The second child exists. */
  predicate HasRight(n: nat, height: nat, pos: nat)
    requires height > 0
  {
    2 * pos + 1 < Width(n, height - 1)
  }

  /** The hash of a node; a node with one child counts it twice. */
  function CalcHash(H: PairHash, ids: seq<Hash>, height: nat, pos: nat): Hash
    requires pos < Width(|ids|, height)
  {
    WidthIff(|ids|, height, pos);
    if height == 0 then ids[pos]
    else
      Children(|ids|, height, pos);
      var left := CalcHash(H, ids, height - 1, 2 * pos);
      var right := if HasRight(|ids|, height, pos) then CalcHash(H, ids, height - 1, 2 * pos + 1) else left;
      H(left, right)
  }

  /** Some leaf from `lo` up to `hi`, if it exists, is matched. */
  predicate AnyMatch(match_: seq<bool>, lo: nat, hi: nat)
  {
    exists p | lo <= p < hi && p < |match_| :: match_[p]
  }

  predicate ParentOfMatch(match_: seq<bool>, height: nat, pos: nat) {
    AnyMatch(match_, pos * Pow2(height), (pos + 1) * Pow2(height))
  }

  datatype Encoding = Encoding(bits: seq<bool>, hashes: seq<Hash>) {
    function Then(next: Encoding): Encoding { Encoding(bits + next.bits, hashes + next.hashes) }
  }

  /** What TraverseAndBuild appends for a node. */
  function Build(H: PairHash, ids: seq<Hash>, match_: seq<bool>, height: nat, pos: nat): Encoding
    requires |match_| == |ids| && pos < Width(|ids|, height)
  {
    var parent := ParentOfMatch(match_, height, pos);
    if height == 0 || !parent then Encoding([parent], [CalcHash(H, ids, height, pos)])
    else
      Children(|ids|, height, pos);
      var head := Encoding([true], []).Then(Build(H, ids, match_, height - 1, 2 * pos));
      if HasRight(|ids|, height, pos) then head.Then(Build(H, ids, match_, height - 1, 2 * pos + 1)) else head
  }

  /** How far the decoder got, and what it found. */
  datatype Cursor = Cursor(nBits: nat, nHash: nat, bad: bool, matches: seq<Hash>, indexes: seq<nat>)

  /** TraverseAndExtract over a tree of `n` leaves. */
  function Extract(H: PairHash, n: nat, enc: Encoding, height: nat, pos: nat, c: Cursor): (Hash, Cursor)
    decreases height
  {
    if c.nBits >= |enc.bits| then (0, c.(bad := true))
    else
      var parent := enc.bits[c.nBits];
      var c1 := c.(nBits := c.nBits + 1);
      if height == 0 || !parent then
        if c1.nHash >= |enc.hashes| then (0, c1.(bad := true))
        else
          var hash := enc.hashes[c1.nHash];
          var c2 := c1.(nHash := c1.nHash + 1);
          (hash,
           if height == 0 && parent then c2.(matches := c2.matches + [hash], indexes := c2.indexes + [pos]) else c2)
      else
        var (left, c2) := Extract(H, n, enc, height - 1, 2 * pos, c1);
        if HasRight(n, height, pos) then
          var (right, c3) := Extract(H, n, enc, height - 1, 2 * pos + 1, c2);
          (H(left, right), if right == left then c3.(bad := true) else c3)
        else (H(left, left), c2)
  }

  /** Some node that the encoder descends into has two children with the same hash. */
  predicate Twins(H: PairHash, ids: seq<Hash>, match_: seq<bool>, height: nat, pos: nat)
    requires |match_| == |ids| && pos < Width(|ids|, height)
  {
    height > 0 && ParentOfMatch(match_, height, pos) &&
    (Children(|ids|, height, pos);
     Twins(H, ids, match_, height - 1, 2 * pos) ||
     (HasRight(|ids|, height, pos) &&
      (Twins(H, ids, match_, height - 1, 2 * pos + 1) ||
       CalcHash(H, ids, height - 1, 2 * pos) == CalcHash(H, ids, height - 1, 2 * pos + 1))))
  }

  /** The positions from `lo` up to `hi` that are matched, in order. */
  function Matched(match_: seq<bool>, lo: nat, hi: nat): seq<nat>
    decreases hi - lo
  {
    if lo >= hi || lo >= |match_| then []
    else (if match_[lo] then [lo] else []) + Matched(match_, lo + 1, hi)
  }

  /** The leaves at the given positions. */
  function At(ids: seq<Hash>, indexes: seq<nat>): seq<Hash> {
    seq(|indexes|, i requires 0 <= i < |indexes| => if indexes[i] < |ids| then ids[indexes[i]] else 0)
  }

  lemma {:induction false} MatchedSplit(match_: seq<bool>, lo: nat, mid: nat, hi: nat)
    requires lo <= mid <= hi
    ensures Matched(match_, lo, hi) == Matched(match_, lo, mid) + Matched(match_, mid, hi)
    decreases hi - lo
  {
    if lo < mid && lo < |match_| { MatchedSplit(match_, lo + 1, mid, hi); }
  }

  /** The matched positions are exactly the matched ones, and they are listed in increasing order. */
  lemma {:induction false} MatchedExact(match_: seq<bool>, lo: nat, hi: nat)
    ensures var m := Matched(match_, lo, hi);
      && (forall p :: p in m <==> lo <= p < hi && p < |match_| && match_[p])
      && (forall i, j | 0 <= i < j < |m| :: m[i] < m[j])
    decreases hi - lo
  {
    if lo < hi && lo < |match_| {
      MatchedExact(match_, lo + 1, hi);
      var m, rest := Matched(match_, lo, hi), Matched(match_, lo + 1, hi);
      hide Matched;
      if match_[lo] {
        assert m == [lo] + rest;
        forall i, j | 0 <= i < j < |m| ensures m[i] < m[j] { assert m[j] == rest[j - 1] && m[j] in rest; }
      } else {
        assert m == rest;
      }
    }
  }

  /** The encoding `b` stands in `enc` from the given places on. */
  ghost predicate Holds(enc: Encoding, nBits: nat, nHash: nat, b: Encoding) {
    && nBits + |b.bits| <= |enc.bits| && enc.bits[nBits..nBits + |b.bits|] == b.bits
    && nHash + |b.hashes| <= |enc.hashes| && enc.hashes[nHash..nHash + |b.hashes|] == b.hashes
  }

  lemma HoldsThen(enc: Encoding, nBits: nat, nHash: nat, a: Encoding, b: Encoding)
    requires Holds(enc, nBits, nHash, a.Then(b))
    ensures Holds(enc, nBits, nHash, a) && Holds(enc, nBits + |a.bits|, nHash + |a.hashes|, b)
  {
    assert a.bits == a.Then(b).bits[..|a.bits|] && b.bits == a.Then(b).bits[|a.bits|..];
    assert a.hashes == a.Then(b).hashes[..|a.hashes|] && b.hashes == a.Then(b).hashes[|a.hashes|..];
  }

  /** The leaves under a node are those under its children. */
  lemma Halves(height: nat, pos: nat)
    requires height > 0
    ensures pos * Pow2(height) == 2 * pos * Pow2(height - 1)
    ensures (pos + 1) * Pow2(height) == (2 * pos + 2) * Pow2(height - 1)
    ensures 2 * pos * Pow2(height - 1) <= (2 * pos + 1) * Pow2(height - 1) <= (2 * pos + 2) * Pow2(height - 1)
  {
    Scaled(2 * pos, 2 * pos + 1, Pow2(height - 1));
    Scaled(2 * pos + 1, 2 * pos + 2, Pow2(height - 1));
  }

  function Under(match_: seq<bool>, height: nat, pos: nat): seq<nat> {
    Matched(match_, pos * Pow2(height), (pos + 1) * Pow2(height))
  }

  lemma UnderLeaf(match_: seq<bool>, height: nat, pos: nat)
    ensures !ParentOfMatch(match_, height, pos) ==> Under(match_, height, pos) == []
    ensures height == 0 && pos < |match_| ==> Under(match_, height, pos) == if match_[pos] then [pos] else []
  {
    var u := Under(match_, height, pos);
    MatchedExact(match_, pos * Pow2(height), (pos + 1) * Pow2(height));
    assert u != [] ==> u[0] in u;
  }

  lemma UnderChildren(match_: seq<bool>, height: nat, pos: nat)
    requires height > 0
    ensures Under(match_, height, pos)
         == Under(match_, height - 1, 2 * pos)
          + if HasRight(|match_|, height, pos) then Under(match_, height - 1, 2 * pos + 1) else []
  {
    var m := Pow2(height - 1);
    Halves(height, pos);
    MatchedSplit(match_, 2 * pos * m, (2 * pos + 1) * m, (2 * pos + 2) * m);
    WidthIff(|match_|, height - 1, 2 * pos + 1);
  }

  /** Where the decoder should stand once it has dealt with an encoded node. */
  ghost function Done(H: PairHash, ids: seq<Hash>, match_: seq<bool>, height: nat, pos: nat, c: Cursor): Cursor
    requires |match_| == |ids| && pos < Width(|ids|, height)
  {
    var b, u := Build(H, ids, match_, height, pos), Under(match_, height, pos);
    Cursor(c.nBits + |b.bits|, c.nHash + |b.hashes|, c.bad || Twins(H, ids, match_, height, pos),
           c.matches + At(ids, u), c.indexes + u)
  }

  lemma DoneLeaf(H: PairHash, ids: seq<Hash>, match_: seq<bool>, height: nat, pos: nat, c: Cursor)
    requires |match_| == |ids| && pos < Width(|ids|, height)
    requires height == 0 || !ParentOfMatch(match_, height, pos)
    ensures var moved := c.(nBits := c.nBits + 1, nHash := c.nHash + 1);
      Done(H, ids, match_, height, pos, c)
        == if ParentOfMatch(match_, height, pos)
           then moved.(matches := c.matches + [CalcHash(H, ids, height, pos)], indexes := c.indexes + [pos])
           else moved
  {
    UnderLeaf(match_, height, pos);
    WidthIff(|ids|, height, pos);
  }

  lemma DoneNode(H: PairHash, ids: seq<Hash>, match_: seq<bool>, height: nat, pos: nat, c: Cursor)
    requires |match_| == |ids| && pos < Width(|ids|, height)
    requires height > 0 && ParentOfMatch(match_, height, pos)
    ensures 2 * pos < Width(|ids|, height - 1)
    ensures var c2 := Done(H, ids, match_, height - 1, 2 * pos, c.(nBits := c.nBits + 1));
      Done(H, ids, match_, height, pos, c)
        == if !HasRight(|ids|, height, pos) then c2
           else
             var c3 := Done(H, ids, match_, height - 1, 2 * pos + 1, c2);
             if CalcHash(H, ids, height - 1, 2 * pos) == CalcHash(H, ids, height - 1, 2 * pos + 1)
             then c3.(bad := true) else c3
  {
    Children(|ids|, height, pos);
    UnderChildren(match_, height, pos);
    hide CalcHash, ParentOfMatch, Under;
    var u, v := Under(match_, height - 1, 2 * pos), Under(match_, height - 1, 2 * pos + 1);
    assert At(ids, u + v) == At(ids, u) + At(ids, v);
  }

  /** Decoding what was encoded for a node yields its hash and exactly the matched leaves under it, uses
      up exactly that part of the encoding, and raises the alarm exactly when twins were met. */
  lemma {:induction false} ExtractBuilt(H: PairHash, ids: seq<Hash>, match_: seq<bool>, enc: Encoding, height: nat,
          pos: nat, c: Cursor)
    requires |match_| == |ids| && pos < Width(|ids|, height)
    requires Holds(enc, c.nBits, c.nHash, Build(H, ids, match_, height, pos))
    ensures Extract(H, |ids|, enc, height, pos, c)
         == (CalcHash(H, ids, height, pos), Done(H, ids, match_, height, pos, c))
    decreases height
  {
    hide Done, ParentOfMatch, Width;
    if height == 0 || !ParentOfMatch(match_, height, pos) {
      DoneLeaf(H, ids, match_, height, pos, c);
    } else {
      ExtractNode(H, ids, match_, enc, height, pos, c);
      DoneNode(H, ids, match_, height, pos, c);
      var c1 := c.(nBits := c.nBits + 1);
      ExtractBuilt(H, ids, match_, enc, height - 1, 2 * pos, c1);
      if HasRight(|ids|, height, pos) {
        ExtractBuilt(H, ids, match_, enc, height - 1, 2 * pos + 1, Done(H, ids, match_, height - 1, 2 * pos, c1));
      }
    }
  }

  /** The encodings of the children stand where the decoder gets to them. */
  lemma ExtractNode(H: PairHash, ids: seq<Hash>, match_: seq<bool>, enc: Encoding, height: nat, pos: nat, c: Cursor)
    requires |match_| == |ids| && pos < Width(|ids|, height)
    requires Holds(enc, c.nBits, c.nHash, Build(H, ids, match_, height, pos))
    requires height > 0 && ParentOfMatch(match_, height, pos)
    ensures 2 * pos < Width(|ids|, height - 1)
    ensures c.nBits < |enc.bits| && enc.bits[c.nBits]
    ensures Holds(enc, c.nBits + 1, c.nHash, Build(H, ids, match_, height - 1, 2 * pos))
    ensures HasRight(|ids|, height, pos) ==>
      var c2 := Done(H, ids, match_, height - 1, 2 * pos, c.(nBits := c.nBits + 1));
      Holds(enc, c2.nBits, c2.nHash, Build(H, ids, match_, height - 1, 2 * pos + 1))
  {
    hide *;
    Children(|ids|, height, pos);
    BuildNode(H, ids, match_, height, pos);
    var head := Encoding([true], []);
    var left := Build(H, ids, match_, height - 1, 2 * pos);
    if HasRight(|ids|, height, pos) {
      RightFits(|ids|, height, pos);
      HoldsThen(enc, c.nBits, c.nHash, head.Then(left), Build(H, ids, match_, height - 1, 2 * pos + 1));
    }
    HoldsThen(enc, c.nBits, c.nHash, head, left);
    ThenSize(head, left);
    HoldsBit(enc, c.nBits, c.nHash);
    DoneCounts(H, ids, match_, height - 1, 2 * pos, c.(nBits := c.nBits + 1));
  }

  /** The encoding of an inner node that is descended into. */
  lemma BuildNode(H: PairHash, ids: seq<Hash>, match_: seq<bool>, height: nat, pos: nat)
    requires |match_| == |ids| && pos < Width(|ids|, height) && height > 0 && ParentOfMatch(match_, height, pos)
    ensures 2 * pos < Width(|ids|, height - 1)
    ensures var head := Encoding([true], []).Then(Build(H, ids, match_, height - 1, 2 * pos));
      Build(H, ids, match_, height, pos) ==
        if HasRight(|ids|, height, pos) then head.Then(Build(H, ids, match_, height - 1, 2 * pos + 1)) else head
  {
    Children(|ids|, height, pos);
    hide CalcHash, ParentOfMatch, Width;
  }

  lemma RightFits(n: nat, height: nat, pos: nat)
    requires height > 0 && HasRight(n, height, pos)
    ensures 2 * pos + 1 < Width(n, height - 1)
  {
  }

  lemma DoneCounts(H: PairHash, ids: seq<Hash>, match_: seq<bool>, height: nat, pos: nat, c: Cursor)
    requires |match_| == |ids| && pos < Width(|ids|, height)
    ensures var b, d := Build(H, ids, match_, height, pos), Done(H, ids, match_, height, pos, c);
      d.nBits == c.nBits + |b.bits| && d.nHash == c.nHash + |b.hashes|
  {
    hide Build, CalcHash, Width, Twins, Under, At;
  }

  lemma ThenSize(a: Encoding, b: Encoding)
    ensures |a.Then(b).bits| == |a.bits| + |b.bits| && |a.Then(b).hashes| == |a.hashes| + |b.hashes|
  {
  }

  lemma HoldsBit(enc: Encoding, nBits: nat, nHash: nat)
    requires Holds(enc, nBits, nHash, Encoding([true], []))
    ensures nBits < |enc.bits| && enc.bits[nBits]
  {
    assert enc.bits[nBits..nBits + 1] == [true];
  }

  // Size of the encoding

  /** The number of leaves under a node. */
  function Leaves(n: nat, height: nat, pos: nat): int {
    (if (pos + 1) * Pow2(height) < n then (pos + 1) * Pow2(height) else n) - pos * Pow2(height)
  }

  /** The nodes with a single child that the encoder descends into. */
  function Singles(n: nat, match_: seq<bool>, height: nat, pos: nat): nat {
    if height == 0 || !ParentOfMatch(match_, height, pos) then 0
    else
      Singles(n, match_, height - 1, 2 * pos)
      + if HasRight(n, height, pos) then Singles(n, match_, height - 1, 2 * pos + 1) else 1
  }

  /** There are at most as many hashes as leaves, and at most one more than matches times height; the
      bits number twice the hashes less one, plus one for every single child. */
  lemma {:induction false} EncodingSize(H: PairHash, ids: seq<Hash>, match_: seq<bool>, height: nat, pos: nat)
    requires |match_| == |ids| && pos < Width(|ids|, height)
    ensures var b := Build(H, ids, match_, height, pos);
      && 1 <= |b.hashes| <= Leaves(|ids|, height, pos)
      && |b.hashes| <= 1 + |Under(match_, height, pos)| * height
      && |b.bits| == 2 * |b.hashes| - 1 + Singles(|ids|, match_, height, pos)
    decreases height
  {
    hide Build, Leaves, ParentOfMatch, Under, Width;
    LeavesSplit(|ids|, height, pos);
    BuildSizes(H, ids, match_, height, pos);
    if height > 0 && ParentOfMatch(match_, height, pos) {
      UnderSome(match_, height, pos);
      EncodingSize(H, ids, match_, height - 1, 2 * pos);
      var u, v := |Under(match_, height - 1, 2 * pos)|, |Under(match_, height - 1, 2 * pos + 1)|;
      Distribute(u, v, height);
      Distribute(u, 0, height);
      if HasRight(|ids|, height, pos) { EncodingSize(H, ids, match_, height - 1, 2 * pos + 1); }
    } else {
      Distribute(|Under(match_, height, pos)|, 0, height);
    }
  }

  lemma Distribute(u: nat, v: nat, h: nat)
    ensures (u + v) * h == u * (h - 1) + v * (h - 1) + u + v
    ensures u * h >= 0
  {
  }

  lemma LeavesSplit(n: nat, height: nat, pos: nat)
    requires pos < Width(n, height)
    ensures Leaves(n, height, pos) >= 1
    ensures height > 0 ==>
      Leaves(n, height, pos)
        == Leaves(n, height - 1, 2 * pos) + if HasRight(n, height, pos) then Leaves(n, height - 1, 2 * pos + 1) else 0
  {
    WidthIff(n, height, pos);
    Scaled(pos, pos + 1, Pow2(height));
    if height > 0 {
      Halves(height, pos);
      WidthIff(n, height - 1, 2 * pos + 1);
    }
  }

  lemma BuildSizes(H: PairHash, ids: seq<Hash>, match_: seq<bool>, height: nat, pos: nat)
    requires |match_| == |ids| && pos < Width(|ids|, height)
    ensures var b := Build(H, ids, match_, height, pos);
      if height == 0 || !ParentOfMatch(match_, height, pos) then |b.bits| == |b.hashes| == 1
      else
        && 2 * pos < Width(|ids|, height - 1)
        && var left := Build(H, ids, match_, height - 1, 2 * pos);
           var lu, u := |Under(match_, height - 1, 2 * pos)|, |Under(match_, height, pos)|;
           if HasRight(|ids|, height, pos) then
             var right := Build(H, ids, match_, height - 1, 2 * pos + 1);
             && |b.bits| == 1 + |left.bits| + |right.bits| && |b.hashes| == |left.hashes| + |right.hashes|
             && u == lu + |Under(match_, height - 1, 2 * pos + 1)|
           else
             |b.bits| == 1 + |left.bits| && |b.hashes| == |left.hashes| && u == lu
  {
    if height > 0 {
      Children(|ids|, height, pos);
      UnderChildren(match_, height, pos);
    }
    hide Width, Under, ParentOfMatch, CalcHash;
  }

  lemma UnderSome(match_: seq<bool>, height: nat, pos: nat)
    requires ParentOfMatch(match_, height, pos)
    ensures |Under(match_, height, pos)| >= 1
  {
    MatchedExact(match_, pos * Pow2(height), (pos + 1) * Pow2(height));
    var p :| pos * Pow2(height) <= p < (pos + 1) * Pow2(height) && p < |match_| && match_[p];
    assert p in Under(match_, height, pos);
  }

  // Forgery

  ghost predicate Injective(H: PairHash) {
    forall a, b, c, d :: H(a, b) == H(c, d) ==> a == c && b == d
  }

  /** From `c` to `d` the decoder found only leaves of `ids`, each at its own index. */
  ghost predicate FoundGenuine(ids: seq<Hash>, c: Cursor, d: Cursor) {
    && c.matches <= d.matches && c.indexes <= d.indexes
    && |d.matches| - |c.matches| == |d.indexes| - |c.indexes|
    && forall i | |c.indexes| <= i < |d.indexes| ::
         d.indexes[i] < |ids| && d.matches[i - |c.indexes| + |c.matches|] == ids[d.indexes[i]]
  }

  lemma FoundMore(ids: seq<Hash>, c: Cursor, d: Cursor, e: Cursor)
    requires FoundGenuine(ids, c, d) && FoundGenuine(ids, d, e)
    ensures FoundGenuine(ids, c, e)
  {
    forall i | |c.indexes| <= i < |d.indexes|
      ensures e.indexes[i] == d.indexes[i]
      ensures e.matches[i - |c.indexes| + |c.matches|] == d.matches[i - |c.indexes| + |c.matches|]
    {
    }
  }

  lemma {:induction false} StaysBad(H: PairHash, n: nat, enc: Encoding, height: nat, pos: nat, c: Cursor)
    requires c.bad
    ensures Extract(H, n, enc, height, pos, c).1.bad
    decreases height
  {
    if height > 0 {
      var c1 := c.(nBits := c.nBits + 1);
      StaysBad(H, n, enc, height - 1, 2 * pos, c1);
      var (_, c2) := Extract(H, n, enc, height - 1, 2 * pos, c1);
      StaysBad(H, n, enc, height - 1, 2 * pos + 1, c2);
    }
  }

  /** Whoever made the encoding: if the decoder arrives at the true hash of a node without raising the
      alarm, every leaf it found is genuine. */
  lemma {:induction false} ExtractGenuine(H: PairHash, ids: seq<Hash>, enc: Encoding, height: nat, pos: nat, c: Cursor)
    requires Injective(H) && pos < Width(|ids|, height)
    requires Extract(H, |ids|, enc, height, pos, c).0 == CalcHash(H, ids, height, pos)
    requires !Extract(H, |ids|, enc, height, pos, c).1.bad
    ensures FoundGenuine(ids, c, Extract(H, |ids|, enc, height, pos, c).1)
    decreases height
  {
    if height == 0 || !enc.bits[c.nBits] {
      WidthIff(|ids|, height, pos);
    } else {
      hide Width, FoundGenuine;
      Children(|ids|, height, pos);
      var c1 := c.(nBits := c.nBits + 1);
      var (left, c2) := Extract(H, |ids|, enc, height - 1, 2 * pos, c1);
      SameFinds(ids, c, c1, c2);
      if HasRight(|ids|, height, pos) {
        if c2.bad { StaysBad(H, |ids|, enc, height - 1, 2 * pos + 1, c2); }
        ExtractGenuine(H, ids, enc, height - 1, 2 * pos, c1);
        ExtractGenuine(H, ids, enc, height - 1, 2 * pos + 1, c2);
        FoundMore(ids, c1, c2, Extract(H, |ids|, enc, height - 1, 2 * pos + 1, c2).1);
        SameFinds(ids, c, c1, Extract(H, |ids|, enc, height - 1, 2 * pos + 1, c2).1);
      } else {
        ExtractGenuine(H, ids, enc, height - 1, 2 * pos, c1);
      }
    }
  }

  lemma SameFinds(ids: seq<Hash>, c: Cursor, c1: Cursor, d: Cursor)
    requires c.matches == c1.matches && c.indexes == c1.indexes
    ensures FoundGenuine(ids, c, d) <==> FoundGenuine(ids, c1, d)
  {
  }
}
