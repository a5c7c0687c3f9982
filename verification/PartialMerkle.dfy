/** CPartialMerkleTree of src/merkleblock.cpp as an object, and its serialized form. */
module PartialMerkle {
  import opened Bits
  import opened MerkleTree

  /** GetMaxBlockWeight() / MIN_TRANSACTION_WEIGHT */
  const MAX_TRANSACTIONS := 8000000 / 240

  lemma WidthHalves(n: nat, height: nat)
    ensures Width(n, height + 1) == (Width(n, height) + 1) / 2
  {
    var w, half := Width(n, height), Width(n, height + 1);
    WidthIff(n, height + 1, half);
    WidthIff(n, height, 2 * half);
    if half > 0 {
      WidthIff(n, height + 1, half - 1);
      WidthIff(n, height, 2 * (half - 1));
    }
  }

  /** The height of the tree: the first height, from `height` on, with at most one node. */
  function HeightFrom(n: nat, height: nat): (h: nat)
    ensures Width(n, h) <= 1 && forall k | height <= k < h :: Width(n, k) > 1
    decreases Width(n, height)
  {
    WidthHalves(n, height);
    if Width(n, height) <= 1 then height else HeightFrom(n, height + 1)
  }

  function Height(n: nat): nat { HeightFrom(n, 0) }

  lemma {:induction false} RootExists(n: nat, height: nat)
    requires n > 0
    ensures Width(n, height) >= 1
  {
    WidthIff(n, height, 0);
  }

  function MerkleRoot(H: PairHash, ids: seq<Hash>): Hash
    requires ids != []
  {
    RootExists(|ids|, Height(|ids|));
    CalcHash(H, ids, Height(|ids|), 0)
  }

  /** The conditions ExtractMatches checks before and after decoding. */
  predicate Plausible(n: nat, enc: Encoding) {
    0 < n <= MAX_TRANSACTIONS && |enc.hashes| <= n && |enc.hashes| <= |enc.bits|
  }

  predicate UsedUp(enc: Encoding, c: Cursor) {
    !c.bad && (c.nBits + 7) / 8 == (|enc.bits| + 7) / 8 && c.nHash == |enc.hashes|
  }

  lemma ThenAssoc(a: Encoding, b: Encoding, c: Encoding)
    ensures a.Then(b).Then(c) == a.Then(b.Then(c))
  {
  }

  lemma Push(a: Encoding, bit: bool, hashes: seq<Hash>)
    ensures a.Then(Encoding([bit], hashes)) == Encoding(a.bits + [bit], a.hashes + hashes)
    ensures hashes == [] ==> a.hashes + hashes == a.hashes
  {
  }

  const NULL_HASH: Hash := 0

  class PartialMerkleTree {
    const H: PairHash
    var nTransactions: nat
    var vBits: seq<bool>
    var vHash: seq<Hash>
    var fBad: bool

    ghost function Encoded(): Encoding
      reads this
    {
      Encoding(vBits, vHash)
    }

    /** As read from the wire: any data whatever. */
    constructor Received(H: PairHash, nTransactions: nat, vBits: seq<bool>, vHash: seq<Hash>)
      ensures this.H == H && this.nTransactions == nTransactions && Encoded() == Encoding(vBits, vHash) && !fBad
    {
      this.H, this.nTransactions, this.vBits, this.vHash, this.fBad := H, nTransactions, vBits, vHash, false;
    }

    constructor (H: PairHash, ids: seq<Hash>, match_: seq<bool>)
      requires ids != [] && |match_| == |ids|
      ensures this.H == H && nTransactions == |ids| && !fBad
      ensures 0 < Width(|ids|, Height(|ids|)) && Encoded() == Build(H, ids, match_, Height(|ids|), 0)
    {
      this.H, nTransactions, vBits, vHash, fBad := H, |ids|, [], [], false;
      new;
      var nHeight := CalcHeight();
      RootExists(nTransactions, nHeight);
      TraverseAndBuild(nHeight, 0, ids, match_);
    }

    method CalcHeight() returns (nHeight: nat)
      ensures nHeight == Height(nTransactions)
    {
      nHeight := 0;
      while Width(nTransactions, nHeight) > 1
        invariant HeightFrom(nTransactions, nHeight) == Height(nTransactions)
        decreases Width(nTransactions, nHeight)
      {
        WidthHalves(nTransactions, nHeight);
        nHeight := nHeight + 1;
      }
    }

    method IsParentOfMatch(height: nat, pos: nat, match_: seq<bool>) returns (fParentOfMatch: bool)
      requires nTransactions == |match_|
      ensures fParentOfMatch <==> ParentOfMatch(match_, height, pos)
    {
      var p := pos * Pow2(height);
      fParentOfMatch := false;
      Scaled(pos, pos + 1, Pow2(height));
      while p < (pos + 1) * Pow2(height) && p < nTransactions
        invariant pos * Pow2(height) <= p <= (pos + 1) * Pow2(height)
        invariant fParentOfMatch <==> AnyMatch(match_, pos * Pow2(height), p)
      {
        fParentOfMatch := fParentOfMatch || match_[p];
        p := p + 1;
      }
    }

    method TraverseAndBuild(height: nat, pos: nat, ids: seq<Hash>, match_: seq<bool>)
      requires nTransactions == |ids| == |match_| && pos < Width(|ids|, height)
      modifies this`vBits, this`vHash
      ensures Encoded() == old(Encoded()).Then(Build(H, ids, match_, height, pos))
      decreases height
    {
      hide ParentOfMatch, CalcHash, Encoding.Then;
      var fParentOfMatch := IsParentOfMatch(height, pos, match_);
      ghost var start := Encoded();
      if height == 0 || !fParentOfMatch {
        Push(start, fParentOfMatch, [CalcHash(H, ids, height, pos)]);
        vBits := vBits + [fParentOfMatch];
        vHash := vHash + [CalcHash(H, ids, height, pos)];
      } else {
        Push(start, true, []);
        vBits := vBits + [fParentOfMatch];
        Children(|ids|, height, pos);
        TraverseAndBuild(height - 1, 2 * pos, ids, match_);
        ghost var head, left := Encoding([true], []), Build(H, ids, match_, height - 1, 2 * pos);
        ThenAssoc(start, head, left);
        if 2 * pos + 1 < Width(nTransactions, height - 1) {
          TraverseAndBuild(height - 1, 2 * pos + 1, ids, match_);
          ThenAssoc(start, head.Then(left), Build(H, ids, match_, height - 1, 2 * pos + 1));
        }
      }
    }

    method TraverseAndExtract(height: nat, pos: nat, c: Cursor) returns (hash: Hash, d: Cursor)
      requires c.bad == fBad
      modifies this`fBad
      ensures (hash, d) == Extract(H, nTransactions, Encoded(), height, pos, c) && fBad == d.bad
      decreases height
    {
      if c.nBits >= |vBits| {
        fBad := true;
        return NULL_HASH, c.(bad := true);
      }
      var fParentOfMatch := vBits[c.nBits];
      d := c.(nBits := c.nBits + 1);
      if height == 0 || !fParentOfMatch {
        if d.nHash >= |vHash| {
          fBad := true;
          return NULL_HASH, d.(bad := true);
        }
        hash := vHash[d.nHash];
        d := d.(nHash := d.nHash + 1);
        if height == 0 && fParentOfMatch {
          d := d.(matches := d.matches + [hash], indexes := d.indexes + [pos]);
        }
        return;
      }
      var left, right;
      left, d := TraverseAndExtract(height - 1, 2 * pos, d);
      if 2 * pos + 1 < Width(nTransactions, height - 1) {
        right, d := TraverseAndExtract(height - 1, 2 * pos + 1, d);
        if right == left {
          fBad := true;
          d := d.(bad := true);
        }
      } else {
        right := left;
      }
      hash := H(left, right);
    }

    /** The root the tree proves and the leaves it proves, or the null hash. The indexes are appended to
        what the caller passes in. */
    method ExtractMatches(vnIndex: seq<nat>) returns (root: Hash, matches: seq<Hash>, indexes: seq<nat>)
      modifies this`fBad
      ensures (root, matches, indexes) == Extracted(H, nTransactions, Encoded(), old(fBad), vnIndex)
    {
      root, matches, indexes := NULL_HASH, [], vnIndex;
      if nTransactions == 0 || nTransactions > MAX_TRANSACTIONS || |vHash| > nTransactions || |vBits| < |vHash| {
        return;
      }
      var nHeight := CalcHeight();
      var hash, c := TraverseAndExtract(nHeight, 0, Cursor(0, 0, fBad, [], vnIndex));
      matches, indexes := c.matches, c.indexes;
      if fBad || (c.nBits + 7) / 8 != (|vBits| + 7) / 8 || c.nHash != |vHash| { return; }
      root := hash;
    }
  }

  function Extracted(H: PairHash, n: nat, enc: Encoding, bad: bool, vnIndex: seq<nat>): (Hash, seq<Hash>, seq<nat>) {
    if !Plausible(n, enc) then (NULL_HASH, [], vnIndex)
    else
      var (hash, c) := Extract(H, n, enc, Height(n), 0, Cursor(0, 0, bad, [], vnIndex));
      (if UsedUp(enc, c) then hash else NULL_HASH, c.matches, c.indexes)
  }

  /** The encoding of a list and a mask, with the padding a byte sequence brings. */
  function Padded(H: PairHash, ids: seq<Hash>, match_: seq<bool>, padding: seq<bool>): Encoding
    requires ids != [] && |match_| == |ids|
  {
    RootExists(|ids|, Height(|ids|));
    Build(H, ids, match_, Height(|ids|), 0).Then(Encoding(padding, []))
  }

  /** Two equal siblings on the way to the matched transactions. */
  predicate AnyTwins(H: PairHash, ids: seq<Hash>, match_: seq<bool>)
    requires ids != [] && |match_| == |ids|
  {
    RootExists(|ids|, Height(|ids|));
    Twins(H, ids, match_, Height(|ids|), 0)
  }

  /** The padding only fills up the last byte. */
  predicate PaddingFits(H: PairHash, ids: seq<Hash>, match_: seq<bool>, padding: seq<bool>)
    requires ids != [] && |match_| == |ids|
  {
    var n, k := |Padded(H, ids, match_, []).bits|, |padding|;
    (n + 7) / 8 == (n + k + 7) / 8
  }

  /** For every list of transactions within the limit and every mask, decoding the encoding gives the
      Merkle root and exactly the matched transactions, in order, with their indexes; only when two
      siblings on the way are equal does it refuse. */
  lemma RoundTrip(H: PairHash, ids: seq<Hash>, match_: seq<bool>, padding: seq<bool>)
    requires 0 < |ids| <= MAX_TRANSACTIONS && |match_| == |ids|
    requires PaddingFits(H, ids, match_, padding)
    ensures var m := Matched(match_, 0, |ids|);
      Extracted(H, |ids|, Padded(H, ids, match_, padding), false, [])
        == (if AnyTwins(H, ids, match_) then NULL_HASH else MerkleRoot(H, ids), At(ids, m), m)
  {
    hide Build, Extract, CalcHash, Twins, Width, Under, Matched;
    var h := Height(|ids|);
    RootExists(|ids|, h);
    var b := Build(H, ids, match_, h, 0);
    var enc := Padded(H, ids, match_, padding);
    EncodingSize(H, ids, match_, h, 0);
    assert Leaves(|ids|, h, 0) <= |ids|;
    assert enc.bits[..|b.bits|] == b.bits && enc.hashes == b.hashes;
    assert Plausible(|ids|, enc);
    var start := Cursor(0, 0, false, [], []);
    ExtractBuilt(H, ids, match_, enc, h, 0, start);
    WidthIff(|ids|, h, 1);
    AllUnderRoot(match_, h);
    assert Done(H, ids, match_, h, 0, start)
        == Cursor(|b.bits|, |b.hashes|, Twins(H, ids, match_, h, 0),
                  At(ids, Matched(match_, 0, |ids|)), Matched(match_, 0, |ids|));
  }

  lemma AllUnderRoot(match_: seq<bool>, h: nat)
    requires |match_| <= Pow2(h)
    ensures Under(match_, h, 0) == Matched(match_, 0, |match_|)
  {
    MatchedSplit(match_, 0, |match_|, Pow2(h));
  }

  /** No encoding, whoever made it, proves a transaction that is not in the list: if it yields the true
      root then every index is in range and holds the transaction it is paired with. */
  lemma NoForgery(H: PairHash, ids: seq<Hash>, enc: Encoding)
    requires Injective(H) && ids != []
    requires MerkleRoot(H, ids) != NULL_HASH && Extracted(H, |ids|, enc, false, []).0 == MerkleRoot(H, ids)
    ensures var (_, matches, indexes) := Extracted(H, |ids|, enc, false, []);
      |matches| == |indexes| && forall i | 0 <= i < |indexes| :: indexes[i] < |ids| && matches[i] == ids[indexes[i]]
  {
    RootExists(|ids|, Height(|ids|));
    ExtractGenuine(H, ids, enc, Height(|ids|), 0, Cursor(0, 0, false, [], []));
  }

  /** What the header promises about the size of a tree: at most one hash for every transaction, and at
      most one more than matches times height. */
  lemma StoredHashes(H: PairHash, ids: seq<Hash>, match_: seq<bool>)
    requires ids != [] && |match_| == |ids|
    ensures var enc := Padded(H, ids, match_, []);
      |enc.hashes| <= |ids| && |enc.hashes| <= 1 + |Matched(match_, 0, |ids|)| * Height(|ids|)
  {
    var h := Height(|ids|);
    RootExists(|ids|, h);
    EncodingSize(H, ids, match_, h, 0);
    WidthIff(|ids|, h, 1);
    AllUnderRoot(match_, h);
  }

  /** It also promises at most 2 * N - 1 bits for N hashes. That holds if and only if the encoder meets no
      node with a single child. */
  lemma StoredBitsIff(H: PairHash, ids: seq<Hash>, match_: seq<bool>)
    requires ids != [] && |match_| == |ids|
    ensures var enc := Padded(H, ids, match_, []);
      |enc.bits| <= 2 * |enc.hashes| - 1 <==> Singles(|ids|, match_, Height(|ids|), 0) == 0
  {
    var h := Height(|ids|);
    RootExists(|ids|, h);
    EncodingSize(H, ids, match_, h, 0);
  }

  /** With three transactions of which the last is matched there are two hashes and four bits. */
  lemma TooManyBits(H: PairHash)
    ensures var enc := Padded(H, [1, 2, 3], [false, false, true], []);
      |enc.hashes| == 2 && |enc.bits| == 4
  {
    hide Build, Under, Width, Height, ParentOfMatch, Pow2;
    var ids, m := [1, 2, 3], [false, false, true];
    ThreeWidths();
    LastMatched();
    BuildSizes(H, ids, m, 2, 0);
    BuildSizes(H, ids, m, 1, 0);
    BuildSizes(H, ids, m, 1, 1);
    BuildSizes(H, ids, m, 0, 2);
  }

  lemma ThreeWidths()
    ensures Width(3, 0) == 3 && Width(3, 1) == 2 && Width(3, 2) == 1 && Height(3) == 2
  {
    assert Pow2(1) == 2 && Pow2(2) == 4;
    assert Height(3) == 2 by { assert HeightFrom(3, 1) == 2; }
  }

  lemma LastMatched()
    ensures var m := [false, false, true]; ParentOfMatch(m, 2, 0) && ParentOfMatch(m, 1, 1) && !ParentOfMatch(m, 1, 0)
  {
    var m := [false, false, true];
    assert m[2];
    assert Pow2(1) == 2 && Pow2(2) == 4;
  }

  // The flag bits as bytes, least significant bit first

  method PackBits(vBits: seq<bool>) returns (vBytes: seq<nat>)
    ensures |vBytes| == (|vBits| + 7) / 8
    ensures forall p | 0 <= p < 8 * |vBytes| :: Bit(vBytes[p / 8], p % 8) <==> p < |vBits| && vBits[p]
  {
    vBytes := seq((|vBits| + 7) / 8, _ => 0);
    forall p | 0 <= p < 8 * |vBytes| ensures !Bit(vBytes[p / 8], p % 8) { ZeroBit(p % 8); }
    for p := 0 to |vBits|
      invariant |vBytes| == (|vBits| + 7) / 8
      invariant forall q | 0 <= q < 8 * |vBytes| :: Bit(vBytes[q / 8], q % 8) <==> q < p && vBits[q]
    {
      var before := vBytes;
      var mask := if vBits[p] then Pow2(p % 8) else 0;
      vBytes := vBytes[p / 8 := Or(vBytes[p / 8], mask)];
      forall q | 0 <= q < 8 * |vBytes| ensures Bit(vBytes[q / 8], q % 8) <==> q < p + 1 && vBits[q] {
        if q / 8 == p / 8 {
          OrBit(before[p / 8], mask, q % 8);
          Pow2Bit(p % 8, q % 8);
          ZeroBit(q % 8);
        }
      }
    }
  }

  method UnpackBits(vBytes: seq<nat>) returns (vBits: seq<bool>)
    ensures |vBits| == 8 * |vBytes|
    ensures forall p | 0 <= p < |vBits| :: vBits[p] == Bit(vBytes[p / 8], p % 8)
  {
    vBits := [];
    for p := 0 to 8 * |vBytes|
      invariant |vBits| == p && forall q | 0 <= q < p :: vBits[q] == Bit(vBytes[q / 8], q % 8)
    {
      vBits := vBits + [Bit(vBytes[p / 8], p % 8)];
    }
  }

  /** A tree sent as bytes and read back still proves its root and its matched transactions. */
  method SendAndReceive(H: PairHash, ids: seq<Hash>, match_: seq<bool>) returns (root: Hash, matches: seq<Hash>,
          indexes: seq<nat>)
    requires 0 < |ids| <= MAX_TRANSACTIONS && |match_| == |ids|
    ensures root == if AnyTwins(H, ids, match_) then NULL_HASH else MerkleRoot(H, ids)
    ensures indexes == Matched(match_, 0, |ids|) && matches == At(ids, indexes)
  {
    hide Build, Twins, Height, Extracted;
    var sent := new PartialMerkleTree(H, ids, match_);
    var vBytes := PackBits(sent.vBits);
    var vBits := UnpackBits(vBytes);
    ghost var padding := vBits[|sent.vBits|..];
    assert vBits == sent.vBits + padding;
    assert Padded(H, ids, match_, []).bits == sent.vBits;
    RoundTrip(H, ids, match_, padding);
    var received := new PartialMerkleTree.Received(H, sent.nTransactions, vBits, sent.vHash);
    assert received.Encoded() == Padded(H, ids, match_, padding);
    root, matches, indexes := received.ExtractMatches([]);
  }
}
