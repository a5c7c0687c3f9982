/** The tree of block headers with its skip list, and the active chain (src/chain.h, src/chain.cpp). */
module Chain {
  import opened Bits
  import opened SkipHeights

  // The tree

  ghost function Below(path: seq<BlockIndex>, h: nat): BlockIndex? {
    if h == 0 || h > |path| then null else path[h - 1]
  }

  ghost predicate SkipsTo(p: BlockIndex?, path: seq<BlockIndex>, h: nat) {
    p == null || (GetSkipHeight(h) < |path| && p == path[GetSkipHeight(h)])
  }

  class BlockIndex {
    const hash: nat
    const pprev: BlockIndex?
    const nHeight: nat
    var pskip: BlockIndex?
    /** The blocks from the genesis block to this one. */
    ghost const path: seq<BlockIndex>

    /** `path` is the path the `pprev` links make, and skip links stay on it. */
    ghost predicate Valid()
      reads this, path
      ensures Valid() ==> |path| == nHeight + 1 && path[nHeight] == this
    {
      && |path| == nHeight + 1 && path[nHeight] == this
      && (forall h {:trigger path[h].nHeight} | 0 <= h <= nHeight :: path[h].nHeight == h)
      && (forall h {:trigger path[h].path} | 0 <= h <= nHeight :: path[h].path == path[..h + 1])
      && (forall h {:trigger path[h].pprev} | 0 <= h <= nHeight :: path[h].pprev == Below(path, h))
      && (forall h {:trigger path[h].pskip} | 0 <= h <= nHeight :: SkipsTo(path[h].pskip, path, h))
    }

    /** Every block but the genesis block has its skip link. */
    ghost predicate Skipping()
      requires Valid()
      reads this, path
    {
      forall h | 0 < h <= nHeight :: path[h].pskip != null
    }

    /** The block reached by following `pprev` a number of times. */
    ghost function Back(steps: nat): BlockIndex
      requires Valid() && steps <= nHeight
      reads this, path
      decreases steps
    {
      if steps == 0 then this else PrevValid(); pprev.Back(steps - 1)
    }

    lemma PrevValid()
      requires Valid() && nHeight > 0
      ensures pprev != null && pprev.Valid() && pprev.path == path[..nHeight] && pprev.nHeight == nHeight - 1
    {
      AncestorValid(nHeight - 1);
      Link(nHeight);
    }

    lemma AncestorValid(h: nat)
      requires Valid() && h <= nHeight
      ensures path[h].Valid() && path[h].path == path[..h + 1] && path[h].nHeight == h
    {
      var b := path[h];
      hide GetSkipHeight;
      forall k | 0 <= k <= h ensures b.path[k].path == b.path[..k + 1] {
        assert path[k].path == path[..k + 1];
      }
      forall k | 0 <= k <= h ensures SkipsTo(b.path[k].pskip, b.path, k) && b.path[k].pprev == Below(b.path, k) {
        assert SkipsTo(path[k].pskip, path, k) && path[k].pprev == Below(path, k);
        if k > 0 { SkipLess(k); }
      }
    }

    lemma Link(h: nat)
      requires Valid() && h <= nHeight
      ensures path[h].pprev == (if h == 0 then null else path[h - 1]) && path[h].nHeight == h
    {
    }

    lemma {:induction false} BackIsPath(steps: nat)
      requires Valid() && steps <= nHeight
      ensures Back(steps) == path[nHeight - steps]
      decreases steps
    {
      if steps > 0 {
        PrevValid();
        pprev.BackIsPath(steps - 1);
      }
    }

    /** A block added on top of another, with its skip link built. */
    constructor (hash: nat, prev: BlockIndex?)
      requires prev != null ==> prev.Valid()
      ensures Valid() && pprev == prev && this.hash == hash
      ensures nHeight == (if prev == null then 0 else prev.nHeight + 1)
      ensures path == (if prev == null then [] else prev.path) + [this]
      ensures prev == null || prev.Skipping() ==> Skipping()
    {
      this.hash := hash;
      this.pprev := prev;
      this.pskip := null;
      this.nHeight := if prev == null then 0 else prev.nHeight + 1;
      this.path := (if prev == null then [] else prev.path) + [this];
      new;
      forall h | 0 <= h <= nHeight
        ensures path[h].nHeight == h && path[h].path == path[..h + 1]
        ensures path[h].pprev == Below(path, h) && SkipsTo(path[h].pskip, path, h)
      {
        if h < nHeight {
          assert path[h] == prev.path[h];
          assert path[..h + 1] == prev.path[..h + 1];
          assert prev.path[h].pprev == Below(prev.path, h) && SkipsTo(prev.path[h].pskip, prev.path, h);
        }
      }
      BuildSkip();
    }

    method BuildSkip()
      requires Valid()
      modifies this`pskip
      ensures Valid() && (nHeight > 0 ==> pskip != null)
    {
      if pprev != null {
        Link(nHeight);
        PrevValid();
        SkipLess(nHeight);
        var skip, _ := pprev.GetAncestor(GetSkipHeight(nHeight));
        pskip := skip;
        assert pprev.path[GetSkipHeight(nHeight)] == path[GetSkipHeight(nHeight)];
      }
    }

    /** The block at a height, found by skip links where they do not overshoot: the one that following
        `pprev` leads to, in a number of steps that is quadratic in the number of bits of the height. */
    method GetAncestor(height: int) returns (r: BlockIndex?, ghost steps: nat)
      requires Valid()
      ensures Skipping() && 0 <= height <= nHeight ==>
        && steps == Steps(nHeight, height)
        && forall k: nat | nHeight < Pow2(k) :: 2 * steps <= k * (k + 3)
      ensures r == if 0 <= height <= nHeight then Back(nHeight - height) else null
      ensures 0 <= height <= nHeight ==> r == path[height] && r.Valid() && r.nHeight == height
    {
      steps := 0;
      if height > nHeight || height < 0 { return null, 0; }
      hide GetSkipHeight, Steps, Pow2;
      var pindexWalk, heightWalk := this, nHeight;
      while heightWalk > height
        invariant height <= heightWalk <= nHeight && pindexWalk == path[heightWalk]
        invariant Skipping() ==> steps + Steps(heightWalk, height) == Steps(nHeight, height)
      {
        OneStep(heightWalk, height);
        steps := steps + 1;
        assert SkipsTo(pindexWalk.pskip, path, heightWalk);
        Link(heightWalk);
        SkipLess(heightWalk);
        var heightSkip, heightSkipPrev := GetSkipHeight(heightWalk), GetSkipHeight(heightWalk - 1);
        var better := heightSkipPrev < heightSkip - 2 && heightSkipPrev >= height;
        if pindexWalk.pskip != null && (heightSkip == height || (heightSkip > height && !better)) {
          pindexWalk := pindexWalk.pskip;
          heightWalk := heightSkip;
        } else {
          assert pindexWalk.pprev != null;
          pindexWalk := pindexWalk.pprev;
          heightWalk := heightWalk - 1;
        }
      }
      AncestorValid(height);
      BackIsPath(nHeight - height);
      NoSteps(height);
      forall k: nat | nHeight < Pow2(k) && Skipping() ensures 2 * steps <= k * (k + 3) { FewSteps(nHeight, height, k); }
      return pindexWalk, steps;
    }
  }

  /** Valid blocks with the same block at a height share everything below it. */
  lemma SharedBelow(a: BlockIndex, b: BlockIndex, h: nat)
    requires a.Valid() && b.Valid() && h <= a.nHeight && h <= b.nHeight && a.path[h] == b.path[h]
    ensures a.path[..h + 1] == b.path[..h + 1]
  {
    a.AncestorValid(h);
    b.AncestorValid(h);
  }

  /** The highest block on both paths, or none when the paths are disjoint. */
  ghost predicate HighestShared(r: BlockIndex?, a: seq<BlockIndex>, b: seq<BlockIndex>) {
    if r == null then forall x | x in a :: x !in b
    else r in a && r in b && forall x | x in a && x in b :: x.nHeight <= r.nHeight
  }

  /** Walking down from `b`, the next block is `p`, at height `h`, or the walk has passed the genesis block. */
  ghost predicate Walking(p: BlockIndex?, b: BlockIndex, h: int) {
    && |b.path| == b.nHeight + 1 && -1 <= h <= b.nHeight
    && (if h < 0 then p == null else p == b.path[h] && b.path[h].nHeight == h)
  }

  lemma WalkStart(b: BlockIndex)
    requires b.Valid()
    ensures Walking(b, b, b.nHeight)
  {
  }

  lemma WalkStep(p: BlockIndex, b: BlockIndex, h: int)
    requires b.Valid() && Walking(p, b, h)
    ensures h >= 0 && Walking(p.pprev, b, h - 1)
  {
    b.Link(h);
    if h > 0 { b.Link(h - 1); }
  }

  /** The two paths have nothing in common above a height. */
  ghost predicate DisjointAbove(a: BlockIndex, b: BlockIndex, h: int)
    requires -1 <= h && |a.path| == a.nHeight + 1 && |b.path| == b.nHeight + 1
  {
    forall k | h < k <= a.nHeight && k <= b.nHeight :: a.path[k] != b.path[k]
  }

  /** LastCommonAncestor: the highest block below or equal to both; the final assertion of the source holds for
      any two blocks, also when their trees have nothing in common. */
  method LastCommonAncestor(a: BlockIndex, b: BlockIndex) returns (r: BlockIndex?)
    requires a.Valid() && b.Valid()
    ensures HighestShared(r, a.path, b.path)
  {
    var pa: BlockIndex?, pb: BlockIndex? := a, b;
    if pa.nHeight > pb.nHeight {
      var there, _ := pa.GetAncestor(pb.nHeight);
      pa := there;
    } else if pb.nHeight > pa.nHeight {
      var there, _ := pb.GetAncestor(pa.nHeight);
      pb := there;
    }
    ghost var h: int := pa.nHeight;
    assert Walking(pa, a, h) && Walking(pb, b, h) && DisjointAbove(a, b, h);
    while pa != pb && pa != null && pb != null
      invariant Walking(pa, a, h) && Walking(pb, b, h) && DisjointAbove(a, b, h)
      decreases h
    {
      hide BlockIndex.Valid;
      WalkStep(pa, a, h);
      WalkStep(pb, b, h);
      pa, pb, h := pa.pprev, pb.pprev, h - 1;
    }
    hide BlockIndex.Valid;
    assert pa == pb;
    Meeting(a, b, h);
    r := pa;
  }

  lemma Meeting(a: BlockIndex, b: BlockIndex, h: int)
    requires a.Valid() && b.Valid() && -1 <= h <= a.nHeight && h <= b.nHeight && (h >= 0 ==> a.path[h] == b.path[h])
    requires DisjointAbove(a, b, h)
    ensures HighestShared(if h < 0 then null else a.path[h], a.path, b.path)
  {
    SharedHeights(a, b);
    hide BlockIndex.Valid;
  }

  /** A block on two paths is at the same place on both. */
  lemma SharedHeights(a: BlockIndex, b: BlockIndex)
    requires a.Valid() && b.Valid()
    ensures forall x | x in a.path && x in b.path ::
      x.nHeight <= a.nHeight && x.nHeight <= b.nHeight && x == a.path[x.nHeight] == b.path[x.nHeight]
    ensures forall h | 0 <= h <= a.nHeight :: a.path[h].nHeight == h
  {
    forall h | 0 <= h <= a.nHeight ensures a.path[h].nHeight == h { a.AncestorValid(h); }
    forall h | 0 <= h <= b.nHeight ensures b.path[h].nHeight == h { b.AncestorValid(h); }
  }

  // Locators

  /** The heights a locator lists, from `height` down, `size` entries after its start. */
  function LocatorHeights(height: nat, nStep: nat, size: nat): seq<nat>
    requires nStep > 0
    decreases height
  {
    [height] + if height == 0 then [] else
      LocatorHeights(if height > nStep then height - nStep else 0, if size + 1 > 10 then 2 * nStep else nStep, size + 1)
  }

  /** A locator descends strictly from the block asked for to the genesis block. */
  lemma {:induction false} LocatorDescends(height: nat, nStep: nat, size: nat)
    requires nStep > 0
    ensures var l := LocatorHeights(height, nStep, size);
      |l| > 0 && l[0] == height && l[|l| - 1] == 0 && forall i, j | 0 <= i < j < |l| :: l[i] > l[j]
    decreases height
  {
    if height > 0 {
      var h, s := if height > nStep then height - nStep else 0, if size + 1 > 10 then 2 * nStep else nStep;
      LocatorDescends(h, s, size + 1);
      assert LocatorHeights(height, nStep, size) == [height] + LocatorHeights(h, s, size + 1);
      hide LocatorHeights;
      OneAbove(height, LocatorHeights(h, s, size + 1));
    } else {
      assert LocatorHeights(height, nStep, size) == [0];
    }
  }

  lemma OneAbove(height: nat, rest: seq<nat>)
    requires |rest| > 0 && rest[0] < height && forall i, j | 0 <= i < j < |rest| :: rest[i] > rest[j]
    ensures var l := [height] + rest; forall i, j | 0 <= i < j < |l| :: l[i] > l[j]
  {
    var l := [height] + rest;
    forall i, j | 0 <= i < j < |l| ensures l[i] > l[j] {
      if j > 1 { assert rest[0] > rest[j - 1]; }
    }
  }

  lemma {:induction false} DoublingLength(height: nat, nStep: nat, size: nat)
    requires nStep > 0 && size >= 11
    ensures var n := |LocatorHeights(height, nStep, size)|; n >= 2 ==> height > (Pow2(n - 2) - 1) * nStep
    decreases height
  {
    if height > 0 {
      var h := if height > nStep then height - nStep else 0;
      DoublingLength(h, 2 * nStep, size + 1);
      var n := |LocatorHeights(height, nStep, size)|;
      if n >= 3 {
        assert Pow2(n - 2) == 2 * Pow2(n - 3);
        assert (Pow2(n - 3) - 1) * (2 * nStep) == (Pow2(n - 2) - 1) * nStep - nStep;
      }
    }
  }

  lemma {:induction false} LocatorLengthFrom(height: nat, size: nat)
    requires size <= 11
    ensures var n := |LocatorHeights(height, if size == 11 then 2 else 1, size)|;
      n > 12 - size ==> height > 9 - size + Pow2(n - (12 - size))
    decreases 11 - size
  {
    if size == 11 {
      DoublingLength(height, 2, 11);
    } else if height > 0 {
      LocatorLengthFrom(height - 1, size + 1);
    }
  }

  /** A locator has at most 12 entries, or at most 12 and the binary logarithm of the height. */
  lemma LocatorLength(height: nat)
    ensures var n := |LocatorHeights(height, 1, 0)|; n > 12 ==> Pow2(n - 12) < height
  {
    LocatorLengthFrom(height, 0);
  }

  /** The hashes are those of the first listed heights on the path to `b`. */
  ghost predicate Located(vHave: seq<nat>, l: seq<nat>, b: BlockIndex) {
    |vHave| <= |l| && forall i | 0 <= i < |vHave| :: l[i] < |b.path| && vHave[i] == b.path[l[i]].hash
  }

  lemma LocatedNone(l: seq<nat>, b: BlockIndex)
    ensures Located([], l, b)
  {
  }

  lemma LocatedMore(vHave: seq<nat>, l: seq<nat>, b: BlockIndex)
    requires Located(vHave, l, b) && |vHave| < |l| && l[|vHave|] < |b.path|
    ensures Located(vHave + [b.path[l[|vHave|]].hash], l, b)
  {
  }

  // The active chain

  /** A chain is the path to its tip. */
  ghost predicate IsPath(chain: seq<BlockIndex?>)
    reads chain
  {
    chain != [] ==>
      var tip := chain[|chain| - 1];
      tip != null && chain == tip.path && tip.Valid()
  }

  /** Above a height the new path is in place, below it what was there before. */
  ghost predicate Placed<T>(chain: seq<T>, was: seq<T>, none: T, path: seq<T>, h: int) {
    && |chain| == |path| && -1 <= h < |path|
    && (forall k | h < k < |chain| :: chain[k] == path[k])
    && (forall k | 0 <= k <= h :: chain[k] == if k < |was| then was[k] else none)
  }

  lemma PlacedStart<T>(was: seq<T>, none: T, path: seq<T>)
    requires path != []
    ensures var n := |path|;
      Placed(if n <= |was| then was[..n] else was + seq(n - |was|, _ => none), was, none, path, n - 1)
  {
  }

  lemma PlacedNext<T>(chain: seq<T>, was: seq<T>, none: T, path: seq<T>, h: int)
    requires Placed(chain, was, none, path, h) && h >= 0
    ensures Placed(chain[h := path[h]], was, none, path, h - 1)
  {
  }

  lemma PlacedAt<T>(chain: seq<T>, was: seq<T>, none: T, path: seq<T>, h: int)
    requires Placed(chain, was, none, path, h) && h >= 0
    ensures |chain| == |path| && chain[h] == if h < |was| then was[h] else none
  {
  }

  lemma PlacedEverywhere<T>(chain: seq<T>, was: seq<T>, none: T, path: seq<T>)
    requires Placed(chain, was, none, path, -1)
    ensures chain == path
  {
  }

  lemma PlacedAll<T>(chain: seq<T>, was: seq<T>, none: T, path: seq<T>, h: int)
    requires Placed(chain, was, none, path, h) && h < |was| && was[..h + 1] == path[..h + 1]
    ensures chain == path
  {
    forall k | 0 <= k <= h ensures chain[k] == path[k] {
      assert was[..h + 1][k] == path[..h + 1][k];
    }
  }

  class ActiveChain {
    var vChain: seq<BlockIndex?>

    constructor ()
      ensures Valid() && vChain == []
    {
      vChain := [];
    }

    ghost predicate Valid()
      reads this, vChain
    {
      IsPath(vChain)
    }

    function Height(): int reads this { |vChain| - 1 }

    function Tip(): BlockIndex? reads this { if |vChain| > 0 then vChain[|vChain| - 1] else null }

    function At(nHeight: int): BlockIndex?
      reads this
    {
      if nHeight < 0 || nHeight >= |vChain| then null else vChain[nHeight]
    }

    predicate Contains(pindex: BlockIndex)
      reads this
    {
      At(pindex.nHeight) == pindex
    }

    /** Comparing the block at one height is enough to tell whether a block is in the chain, and then the chain
        has all of the path to it. */
    lemma ContainsIff(pindex: BlockIndex)
      requires Valid() && pindex.Valid()
      ensures Contains(pindex) <==> pindex in vChain
      ensures Contains(pindex) ==> pindex.path == vChain[..pindex.nHeight + 1]
    {
      if vChain != [] {
        var tip := Tip();
        SharedHeights(tip, pindex);
        if Contains(pindex) { SharedBelow(tip, pindex, pindex.nHeight); }
      }
    }

    /** The successor in the chain, if the block is in the chain and not its tip. */
    function Next(pindex: BlockIndex): (r: BlockIndex?)
      requires Valid() && pindex.Valid()
      reads this, vChain, pindex, pindex.path
      ensures r != null <==> pindex in vChain && pindex != Tip()
      ensures r != null ==> r in vChain && r.pprev == pindex
    {
      FollowedBy(pindex);
      if Contains(pindex) then At(pindex.nHeight + 1) else null
    }

    lemma FollowedBy(pindex: BlockIndex)
      requires Valid() && pindex.Valid()
      ensures var r := if Contains(pindex) then At(pindex.nHeight + 1) else null;
        && (r != null <==> pindex in vChain && pindex != Tip())
        && (r != null ==> r in vChain && r.pprev == pindex)
    {
      ContainsIff(pindex);
      hide BlockIndex.Valid;
      if Contains(pindex) && pindex.nHeight + 1 < |vChain| { Tip().Link(pindex.nHeight + 1); }
    }

    /** Makes the chain the path to a block; stopping at the first block already in place is enough. */
    method SetTip(tip: BlockIndex?)
      requires Valid() && (tip != null ==> tip.Valid())
      modifies this
      ensures Valid() && vChain == if tip == null then [] else tip.path
    {
      if tip == null {
        vChain := [];
        return;
      }
      hide BlockIndex.Valid, Placed;
      ghost var was, path: seq<BlockIndex?> := vChain, tip.path;
      var n := tip.nHeight + 1;
      PlacedStart(vChain, null, path);
      vChain := if n <= |vChain| then vChain[..n] else vChain + seq(n - |vChain|, _ => null);
      ghost var h := PutPath(tip, was);
      if h >= 0 {
        SharedBelow(tip, was[|was| - 1], h);
        PlacedAll(vChain, was, null, path, h);
      } else {
        PlacedEverywhere(vChain, was, null, path);
      }
    }

    /** Writes the path to a block down to the first place where it already is. */
    method PutPath(tip: BlockIndex, ghost was: seq<BlockIndex?>) returns (ghost h: int)
      requires tip.Valid() && Placed(vChain, was, null, tip.path, tip.nHeight)
      modifies this
      ensures Placed(vChain, was, null, tip.path, h)
      ensures h >= 0 ==> h < |was| && was[h] == tip.path[h]
    {
      hide BlockIndex.Valid, Placed;
      ghost var path: seq<BlockIndex?> := tip.path;
      var pindex: BlockIndex? := tip;
      h := tip.nHeight;
      WalkStart(tip);
      PlacedAt(vChain, was, null, path, h);
      while pindex != null && vChain[pindex.nHeight] != pindex
        invariant Walking(pindex, tip, h) && Placed(vChain, was, null, path, h) && |vChain| == |path|
        decreases h
      {
        WalkStep(pindex, tip, h);
        PlacedNext(vChain, was, null, path, h);
        vChain := vChain[pindex.nHeight := pindex];
        pindex, h := pindex.pprev, h - 1;
      }
      if h >= 0 { PlacedAt(vChain, was, null, path, h); }
    }

    /** The highest block of the chain that is the given block or below it. */
    method FindFork(pindex: BlockIndex?) returns (r: BlockIndex?)
      requires Valid() && (pindex != null ==> pindex.Valid())
      ensures if pindex == null then r == null else if vChain == [] then r == null
        else HighestShared(r, pindex.path, Tip().path)
    {
      if pindex == null { return null; }
      hide BlockIndex.Valid, BlockIndex.Back;
      var b := pindex;
      r := b;
      ghost var h: int := b.nHeight;
      if r.nHeight > Height() {
        var there, _ := r.GetAncestor(Height());
        r := there;
        h := Height();
      }
      if vChain == [] { return; }
      ghost var tip := Tip();
      assert Walking(r, b, h) && Walking(At(h), tip, h) && DisjointAbove(b, tip, h);
      while r != null && !Contains(r)
        invariant Walking(r, b, h) && h < |vChain| && DisjointAbove(b, tip, h)
        decreases h
      {
        WalkStep(r, b, h);
        r, h := r.pprev, h - 1;
      }
      hide HighestShared;
      Meeting(b, tip, h);
    }

    /** The hashes of the blocks below a block (by default the tip) at exponentially growing distances. */
    method GetLocator(pindex: BlockIndex?) returns (vHave: seq<nat>)
      requires Valid() && (pindex != null ==> pindex.Valid())
      ensures var b := if pindex == null then Tip() else pindex;
        if b == null then vHave == []
        else var l := LocatorHeights(b.nHeight, 1, 0); |vHave| == |l| && Located(vHave, l, b)
    {
      var b := if pindex == null then Tip() else pindex;
      if b == null {
        vHave := [];
      } else {
        vHave := LocatorOf(b);
      }
    }

    method LocatorOf(b: BlockIndex) returns (vHave: seq<nat>)
      requires Valid() && b.Valid()
      ensures var l := LocatorHeights(b.nHeight, 1, 0); |vHave| == |l| && Located(vHave, l, b)
    {
      hide BlockIndex.Valid, LocatorHeights, Located;
      vHave := [];
      var walk, nStep := b, 1;
      ghost var l := LocatorHeights(b.nHeight, 1, 0);
      LocatorDescends(b.nHeight, 1, 0);
      LocatedNone(l, b);
      while true
        invariant nStep > 0 && walk.Valid() && |vHave| < |l| && Located(vHave, l, b)
        invariant walk.nHeight <= b.nHeight && walk == b.path[walk.nHeight]
        invariant l[|vHave|..] == LocatorHeights(walk.nHeight, nStep, |vHave|)
        decreases walk.nHeight
      {
        LocatorStep(l, |vHave|, walk.nHeight, nStep);
        LocatedMore(vHave, l, b);
        vHave := vHave + [walk.hash];
        if walk.nHeight == 0 { break; }
        var nHeight := if walk.nHeight > nStep then walk.nHeight - nStep else 0;
        walk := Lower(walk, nHeight, b);
        if |vHave| > 10 { nStep := 2 * nStep; }
      }
    }

    method Lower(pindex: BlockIndex, nHeight: nat, ghost b: BlockIndex) returns (r: BlockIndex)
      requires Valid() && b.Valid() && pindex.Valid() && pindex.nHeight <= b.nHeight && pindex == b.path[pindex.nHeight]
      requires nHeight <= pindex.nHeight
      ensures r == b.path[nHeight] && r.Valid() && r.nHeight == nHeight
    {
      hide BlockIndex.Valid, BlockIndex.Back;
      b.AncestorValid(pindex.nHeight);
      b.AncestorValid(nHeight);
      if Contains(pindex) {
        ContainsIff(pindex);
        r := At(nHeight);
      } else {
        var there, _ := pindex.GetAncestor(nHeight);
        r := there;
      }
    }
  }

  lemma LocatorStep(l: seq<nat>, k: nat, height: nat, nStep: nat)
    requires nStep > 0 && k < |l| && l[k..] == LocatorHeights(height, nStep, k)
    ensures l[k] == height
    ensures height == 0 ==> k + 1 == |l|
    ensures height > 0 ==>
      && k + 1 < |l|
      && l[k + 1..] == LocatorHeights(
           if height > nStep then height - nStep else 0, if k + 1 > 10 then 2 * nStep else nStep, k + 1)
  {
    assert l[k] == l[k..][0];
    assert l[k + 1..] == l[k..][1..];
  }
}
