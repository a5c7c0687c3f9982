/** Rebuilding a block from a compact block and the pools of transactions (src/blockencodings.cpp). */
module CompactBlocks {
  import opened BlockEncodings
  import opened CompactPlaces
  import opened Options

  // The block being put together

  /** What InitData leaves behind: the places after the prefilled transactions, the spots of the identifiers, the
      table, and the two scans. In blocks of up to 2^16 transactions every match is at the spot of its identifier. */
  ghost predicate Initialised(c: CompactBlock, mempool: Pool, extra: Pool, start: Available, spots: seq<nat>,
          m: map<nat, nat>, s: Scan) {
    && Placed(start, c, |c.prefilled|) && Spots(start, spots, |start|)
    && |spots| == |m| == |c.shortIds| && Lookup(c, m, spots, |spots|) && (forall id | id in m :: m[id] < |start|)
    && s == ScanExtra(c, m, extra, ScanPool(c, m, mempool, Start(start)))
    && Scanning(c, mempool + extra, m, start, s)
    && (TxCount(c) <= MAX16 + 1 ==> Filled(c, mempool + extra, start, spots, s.a, s.count))
  }

  /** The tests that make a message invalid. */
  ghost predicate Refused(c: CompactBlock) {
    c.headerIsNull || TxCount(c) == 0 || TxCount(c) > MAX_COUNT || !Placeable(c, |c.prefilled|)
  }

  /** All of the first 2^16 places are taken, so the search for a place, with its offset of 16 bits, goes on forever. */
  ghost predicate Stuck(c: CompactBlock) { c.shortIds != [] && |c.prefilled| > MAX16 }

  class PartiallyDownloadedBlock {
    var txnAvailable: Available
    var headerIsNull: bool
    var prefilledCount: nat
    var mempoolCount: int
    var extraCount: nat

    constructor ()
      ensures txnAvailable == [] && headerIsNull && prefilledCount == mempoolCount == extraCount == 0
    {
      txnAvailable, headerIsNull, prefilledCount, mempoolCount, extraCount := [], true, 0, 0, 0;
    }

    method PlacePrefilled(c: CompactBlock) returns (ok: bool)
      modifies `txnAvailable
      ensures ok <==> Placeable(c, |c.prefilled|)
      ensures ok ==> Placed(txnAvailable, c, |c.prefilled|)
    {
      hide *;
      txnAvailable := seq(TxCount(c), _ => None);
      PlacedStart(c, txnAvailable);
      var last: int := -1;
      for i := 0 to |c.prefilled|
        invariant last == (if i == 0 then -1 else Position(c.prefilled, i - 1))
        invariant Placeable(c, i) && Placed(txnAvailable, c, i)
      {
        PlaceableNext(c, i);
        if c.prefilled[i].tx.isNull { return false; }
        last := last + c.prefilled[i].index + 1;
        if last > MAX16 { return false; }
        if last > |c.shortIds| + i { return false; }
        PlacedNext(txnAvailable, c, i);
        txnAvailable := txnAvailable[last := Some(c.prefilled[i].tx)];
      }
      return true;
    }

    /** Searches for the next empty place. The offset has 16 bits; back at 0 it has seen all the places it ever will,
        none of which is empty. */
    method NextSpot(c: CompactBlock, i: nat, indexOffset: nat, ghost spots: seq<nat>) returns (found: bool, offset: nat)
      requires Placeable(c, |c.prefilled|) && Placed(txnAvailable, c, |c.prefilled|)
      requires Spots(txnAvailable, spots, i + indexOffset) && |spots| == i < |c.shortIds| && indexOffset <= MAX16
      ensures found <==> !Stuck(c)
      ensures found ==> offset <= MAX16 && i + offset < |txnAvailable| && txnAvailable[i + offset].None?
      ensures found ==> Spots(txnAvailable, spots, i + offset)
      ensures !found ==> forall q | i <= q <= i + MAX16 :: q < |txnAvailable| && txnAvailable[q].Some?
    {
      hide Placed, Placeable, Spots, EmptyBelow;
      PrefilledBound(c, txnAvailable);
      offset := indexOffset;
      OffsetCounts(c, txnAvailable, spots, i, offset);
      while txnAvailable[i + offset].Some?
        invariant offset <= MAX16 && i + offset < |txnAvailable| && Spots(txnAvailable, spots, i + offset)
        decreases |txnAvailable| - offset
      {
        OffsetCounts(c, txnAvailable, spots, i, offset);
        SpotsNext(txnAvailable, spots, i + offset);
        offset := (offset + 1) % (MAX16 + 1);
        if offset == 0 {
          NeverFound(c, txnAvailable, spots, i, MAX16);
          return false, offset;
        }
        OffsetCounts(c, txnAvailable, spots, i, offset);
      }
      if |c.prefilled| == MAX16 + 1 { NeverFound(c, txnAvailable, spots, i, offset); }
      found := true;
    }

    /** Gives every short identifier the next empty place. `crowded(i)` tells whether the bucket of identifier `i`, in a
        table whose layout is up to the implementation, has too many entries once it is in. */
    method MapShortIds(c: CompactBlock, crowded: nat -> bool) returns (status: Status, m: map<nat, nat>,
            ghost spots: seq<nat>)
      requires Placeable(c, |c.prefilled|) && Placed(txnAvailable, c, |c.prefilled|)
      ensures status == Endless <==> Stuck(c)
      ensures status == Ok <==>
        !Stuck(c) && Distinct(c, |c.shortIds|) && forall i | 0 <= i < |c.shortIds| :: !crowded(i)
      ensures status == Ok || status == Failed || status == Endless
      ensures status == Ok ==> |spots| == |m| == |c.shortIds| && Lookup(c, m, spots, |spots|)
      ensures status == Ok ==> Spots(txnAvailable, spots, |txnAvailable|)
      ensures status == Ok ==> forall id | id in m :: m[id] < |txnAvailable| && Listed(c, |c.shortIds|, id)
      ensures status == Ok ==>
        (NoneWraps(c, m, spots) <==> TxCount(c) <= MAX16 + 1)
    {
      hide Placed, Placeable, Mapped, Spots, EmptyBelow, Distinct, Lookup;
      m, spots := map[], [];
      var indexOffset: nat := 0;
      SpotsStart(c, txnAvailable);
      for i := 0 to |c.shortIds|
        invariant Spots(txnAvailable, spots, i + indexOffset) && Mapped(c, m, spots, i) && |spots| == i
        invariant indexOffset <= MAX16 && (i > 0 ==> !Stuck(c)) && forall k | 0 <= k < i :: !crowded(k)
      {
        var found, offset := NextSpot(c, i, indexOffset, spots);
        if !found { return Endless, m, spots; }
        indexOffset := offset;
        SpotsNext(txnAvailable, spots, i + indexOffset);
        MappedNext(c, m, spots, i, i + indexOffset);
        m := m[c.shortIds[i] := (i + indexOffset) % (MAX16 + 1)];
        spots := spots + [i + indexOffset];
        if crowded(i) { return Failed, m, spots; }
      }
      MappedCount(c, m, spots);
      if |m| != |c.shortIds| { return Failed, m, spots; }
      AllMapped(c, txnAvailable, m, spots, |c.shortIds| + indexOffset);
      status := Ok;
    }

    /** Takes transactions of the memory pool that match; two that match the same place cancel out. */
    method TakeFromPool(c: CompactBlock, m: map<nat, nat>, pool: Pool, had: seq<bool>) returns (have: seq<bool>)
      requires Fits(m, Scan(txnAvailable, had, mempoolCount, extraCount))
      modifies `txnAvailable, `mempoolCount
      ensures Scan(txnAvailable, have, mempoolCount, extraCount)
           == ScanPool(c, m, pool, old(Scan(txnAvailable, had, mempoolCount, extraCount)))
    {
      hide MatchPool;
      have := had;
      ghost var start := Scan(txnAvailable, had, mempoolCount, extraCount);
      assert pool[0..] == pool;
      for i := 0 to |pool|
        invariant Fits(m, Scan(txnAvailable, have, mempoolCount, extraCount))
        invariant ScanPool(c, m, pool, start)
               == ScanPool(c, m, pool[i..], Scan(txnAvailable, have, mempoolCount, extraCount))
      {
        assert pool[i..][0] == pool[i] && pool[i..][1..] == pool[i + 1..];
        have := PoolMatch(c, m, pool[i], have);
        if mempoolCount == |m| { return; }
      }
    }

    method PoolMatch(c: CompactBlock, m: map<nat, nat>, e: (nat, Tx), had: seq<bool>) returns (have: seq<bool>)
      requires Fits(m, Scan(txnAvailable, had, mempoolCount, extraCount))
      modifies `txnAvailable, `mempoolCount
      ensures Scan(txnAvailable, have, mempoolCount, extraCount)
           == MatchPool(c, m, e, old(Scan(txnAvailable, had, mempoolCount, extraCount)))
    {
      have := had;
      var id := c.shortId(e.0);
      if id in m {
        if !have[m[id]] {
          txnAvailable := txnAvailable[m[id] := Some(e.1)];
          have := have[m[id] := true];
          mempoolCount := mempoolCount + 1;
        } else if txnAvailable[m[id]].Some? {
          txnAvailable := txnAvailable[m[id] := None];
          mempoolCount := mempoolCount - 1;
        }
      }
    }

    /** Then takes extra ones, unless the memory pool has another one. */
    method TakeFromExtra(c: CompactBlock, m: map<nat, nat>, pool: Pool, had: seq<bool>) returns (have: seq<bool>)
      requires Fits(m, Scan(txnAvailable, had, mempoolCount, extraCount))
      modifies `txnAvailable, `mempoolCount, `extraCount
      ensures Scan(txnAvailable, have, mempoolCount, extraCount)
           == ScanExtra(c, m, pool, old(Scan(txnAvailable, had, mempoolCount, extraCount)))
    {
      hide MatchExtra;
      have := had;
      ghost var start := Scan(txnAvailable, had, mempoolCount, extraCount);
      assert pool[0..] == pool;
      for i := 0 to |pool|
        invariant Fits(m, Scan(txnAvailable, have, mempoolCount, extraCount))
        invariant ScanExtra(c, m, pool, start)
               == ScanExtra(c, m, pool[i..], Scan(txnAvailable, have, mempoolCount, extraCount))
      {
        assert pool[i..][0] == pool[i] && pool[i..][1..] == pool[i + 1..];
        have := ExtraMatch(c, m, pool[i], have);
        if mempoolCount == |m| { return; }
      }
    }

    method ExtraMatch(c: CompactBlock, m: map<nat, nat>, e: (nat, Tx), had: seq<bool>) returns (have: seq<bool>)
      requires Fits(m, Scan(txnAvailable, had, mempoolCount, extraCount))
      modifies `txnAvailable, `mempoolCount, `extraCount
      ensures Scan(txnAvailable, have, mempoolCount, extraCount)
           == MatchExtra(c, m, e, old(Scan(txnAvailable, had, mempoolCount, extraCount)))
    {
      have := had;
      var id := c.shortId(e.0);
      if id in m {
        if !have[m[id]] {
          txnAvailable := txnAvailable[m[id] := Some(e.1)];
          have := have[m[id] := true];
          mempoolCount := mempoolCount + 1;
          extraCount := (extraCount + 1) % TWO64;
        } else if txnAvailable[m[id]].Some? && txnAvailable[m[id]].value.witnessHash != e.1.witnessHash {
          txnAvailable := txnAvailable[m[id] := None];
          mempoolCount := mempoolCount - 1;
          extraCount := (extraCount + TWO64 - 1) % TWO64;
        }
      }
    }

    /** Prepares the places of a block, whatever the message. */
    method InitData(c: CompactBlock, mempool: Pool, extra: Pool, crowded: nat -> bool)
      returns (status: Status, ghost start: Available, ghost spots: seq<nat>, ghost m: map<nat, nat>,
               ghost have: seq<bool>)
      requires txnAvailable == [] && headerIsNull && mempoolCount == 0 && extraCount == 0
      modifies this
      ensures status == Invalid <==> Refused(c)
      ensures status == Endless <==> !Refused(c) && Stuck(c)
      ensures status == Ok <==>
        && !Refused(c) && !Stuck(c) && Distinct(c, |c.shortIds|)
        && forall i | 0 <= i < |c.shortIds| :: !crowded(i)
      ensures status == Ok ==>
        && !headerIsNull && prefilledCount == |c.prefilled|
        && Initialised(c, mempool, extra, start, spots, m, Scan(txnAvailable, have, mempoolCount, extraCount))
    {
      hide *;
      RefusedIff(c);
      start, spots, m, have := [], [], map[], [];
      if c.headerIsNull || (|c.shortIds| == 0 && |c.prefilled| == 0) { return Invalid, start, spots, m, have; }
      if |c.shortIds| + |c.prefilled| > MAX_COUNT { return Invalid, start, spots, m, have; }
      headerIsNull := false;
      var ok := PlacePrefilled(c);
      if !ok { return Invalid, start, spots, m, have; }
      start := txnAvailable;
      prefilledCount := |c.prefilled|;
      status, spots, m, have := FillSpots(c, mempool, extra, crowded);
    }

    /** The part of InitData after the prefilled transactions. */
    method FillSpots(c: CompactBlock, mempool: Pool, extra: Pool, crowded: nat -> bool)
      returns (status: Status, ghost spots: seq<nat>, ghost m: map<nat, nat>, ghost have: seq<bool>)
      requires Placeable(c, |c.prefilled|) && Placed(txnAvailable, c, |c.prefilled|)
      requires mempoolCount == 0 && extraCount == 0
      modifies `txnAvailable, `mempoolCount, `extraCount
      ensures status == Endless <==> Stuck(c)
      ensures status == Ok <==>
        !Stuck(c) && Distinct(c, |c.shortIds|) && forall i | 0 <= i < |c.shortIds| :: !crowded(i)
      ensures status == Ok || status == Failed || status == Endless
      ensures status == Ok ==>
        Initialised(c, mempool, extra, old(txnAvailable), spots, m, Scan(txnAvailable, have, mempoolCount, extraCount))
    {
      hide *;
      ghost var start := txnAvailable;
      have := [];
      var table;
      status, table, spots := MapShortIds(c, crowded);
      m := table;
      if status != Ok { return; }
      NowInitialised(c, mempool, extra, start, spots, m);
      var haveTxn := seq(|txnAvailable|, _ => false);
      StartIs(start, haveTxn);
      haveTxn := TakeFromPool(c, table, mempool, haveTxn);
      haveTxn := TakeFromExtra(c, table, extra, haveTxn);
      have := haveTxn;
    }

    /** Puts the transactions sent on request into the empty places, in order. */
    method FillBlock(missing: seq<Tx>, check: seq<Tx> -> Check) returns (status: Status, vtx: seq<Tx>)
      requires !headerIsNull
      modifies this
      ensures |missing| != EmptyBelow(old(txnAvailable), |old(txnAvailable)|) ==> status == Invalid
      ensures |missing| == EmptyBelow(old(txnAvailable), |old(txnAvailable)|) ==>
        && status == Judged(check(vtx)) && IsFilled(old(txnAvailable), missing, vtx, |old(txnAvailable)|)
      ensures if |missing| < EmptyBelow(old(txnAvailable), |old(txnAvailable)|) then !headerIsNull
              else headerIsNull && txnAvailable == []
    {
      hide IsFilled;
      vtx := [];
      ghost var was := txnAvailable;
      var offset := 0;
      FilledStart(was, missing);
      for i := 0 to |txnAvailable|
        invariant |txnAvailable| == |was| && forall k | i <= k < |was| :: txnAvailable[k] == was[k]
        invariant offset == EmptyBelow(was, i) <= |missing| && IsFilled(was, missing, vtx, i) && !headerIsNull
      {
        EmptyMore(was, i, |was|);
        EmptyMore(was, i + 1, |was|);
        FilledNext(was, missing, vtx, i);
        if txnAvailable[i].None? {
          if |missing| <= offset { return Invalid, vtx; }
          vtx := vtx + [missing[offset]];
          offset := offset + 1;
        } else {
          vtx := vtx + [txnAvailable[i].value];
          txnAvailable := txnAvailable[i := None];
        }
      }
      headerIsNull := true;
      txnAvailable := [];
      if |missing| != offset { return Invalid, vtx; }
      status := Judged(check(vtx));
    }
  }

  lemma FilledStart(a: Available, missing: seq<Tx>)
    ensures IsFilled(a, missing, [], 0)
  {
  }

  lemma FilledNext(a: Available, missing: seq<Tx>, vtx: seq<Tx>, i: nat)
    requires IsFilled(a, missing, vtx, i) && i < |a|
    ensures a[i].Some? ==> IsFilled(a, missing, vtx + [a[i].value], i + 1)
    ensures a[i].None? && EmptyBelow(a, i) < |missing| ==>
      IsFilled(a, missing, vtx + [missing[EmptyBelow(a, i)]], i + 1)
  {
    hide EmptyBelow;
  }

  /** Every place holds its transaction, or the next one sent. */
  ghost predicate IsFilled(a: Available, missing: seq<Tx>, vtx: seq<Tx>, k: nat) {
    && k <= |a| && |vtx| == k
    && forall i | 0 <= i < k ::
         if a[i].Some? then vtx[i] == a[i].value
         else EmptyBelow(a, i) < |missing| && vtx[i] == missing[EmptyBelow(a, i)]
  }

  function Judged(check: Check): Status {
    match check
    case Good => Ok
    case Corrupt => Failed
    case Bad => CheckBlockFailed
  }

  lemma RefusedIff(c: CompactBlock)
    ensures TxCount(c) == |c.shortIds| + |c.prefilled|
    ensures Refused(c) <==>
      c.headerIsNull || TxCount(c) == 0 || TxCount(c) > MAX_COUNT || !Placeable(c, |c.prefilled|)
  {
  }

  lemma StartIs(a: Available, have: seq<bool>)
    requires |have| == |a| && forall i | 0 <= i < |have| :: !have[i]
    ensures Start(a) == Scan(a, have, 0, 0)
  {
  }

  lemma MappedCount(c: CompactBlock, m: map<nat, nat>, spots: seq<nat>)
    requires Mapped(c, m, spots, |c.shortIds|)
    ensures |m| == |c.shortIds| <==> Distinct(c, |c.shortIds|)
    ensures Distinct(c, |c.shortIds|) ==> |spots| == |c.shortIds| && Lookup(c, m, spots, |spots|)
  {
  }

  lemma AllMapped(c: CompactBlock, a: Available, m: map<nat, nat>, spots: seq<nat>, end: nat)
    requires Placeable(c, |c.prefilled|) && Placed(a, c, |c.prefilled|)
    requires Mapped(c, m, spots, |c.shortIds|) && Distinct(c, |c.shortIds|) && Spots(a, spots, end)
    ensures Spots(a, spots, |a|) && forall id | id in m :: m[id] < |a| && Listed(c, |c.shortIds|, id)
    ensures NoneWraps(c, m, spots) <==> TxCount(c) <= MAX16 + 1
  {
    hide EmptyBelow, Placeable;
    assert |a| == TxCount(c) && EmptyBelow(a, |a|) == |c.shortIds|;
    SpotsEnd(a, spots, end);
    PlacesRightIff(c, a, m, spots);
    forall id | id in m ensures m[id] < |a| && Listed(c, |c.shortIds|, id) {
      assert Listed(c, |c.shortIds|, id);
      var i :| 0 <= i < |c.shortIds| && c.shortIds[i] == id;
      Below(spots[i]);
    }
  }

  lemma Below(q: nat)
    ensures q % (MAX16 + 1) <= q
  {
  }

  // Rebuilding a block

  ghost function FilledSpots(a: Available, spots: seq<nat>): set<int> {
    set q | 0 <= q < |a| && q in spots && a[q].Some?
  }

  /** The spots are the places the prefilled transactions leave, and hold only transactions of the pool that match. */
  ghost predicate Filled(c: CompactBlock, pool: Pool, start: Available, spots: seq<nat>, a: Available, count: int) {
    && |a| == |start| && |spots| == |c.shortIds| && Spots(start, spots, |start|)
    && (forall q | 0 <= q < |a| && start[q].Some? :: a[q] == start[q])
    && (forall i | 0 <= i < |spots| :: a[spots[i]].Some? ==> FromPool(c, pool, c.shortIds[i], a[spots[i]].value))
    && count == |FilledSpots(a, spots)|
  }

  lemma DistinctSpots(a: Available, spots: seq<nat>, i: nat, j: nat)
    requires Spots(a, spots, |a|) && i < |spots| && j < |spots| && spots[i] == spots[j]
    ensures i == j
  {
  }

  /** With places that do not wrap around, what the scans find is where it belongs. */
  lemma NowFilled(c: CompactBlock, pool: Pool, start: Available, spots: seq<nat>, m: map<nat, nat>, s: Scan)
    requires Scanning(c, pool, m, start, s) && Spots(start, spots, |start|) && |spots| == |c.shortIds|
    requires NoneWraps(c, m, spots)
    requires forall id | id in m :: Listed(c, |c.shortIds|, id)
    ensures Filled(c, pool, start, spots, s.a, s.count)
  {
    hide EmptyBelow, FromPool;
    forall p: nat | p < |s.a| && s.have[p]
      ensures exists i | 0 <= i < |spots| ::
        spots[i] == p && (s.a[p].Some? ==> FromPool(c, pool, c.shortIds[i], s.a[p].value))
    {
      assert Matched(c, pool, m, p, s.a[p]);
      var id :| id in m && m[id] == p && (s.a[p].Some? ==> FromPool(c, pool, id, s.a[p].value));
      assert Listed(c, |c.shortIds|, id);
      var i :| 0 <= i < |c.shortIds| && c.shortIds[i] == id;
      assert spots[i] == p;
    }
    hide Matched, Listed;
    forall i | 0 <= i < |spots| && s.a[spots[i]].Some? ensures FromPool(c, pool, c.shortIds[i], s.a[spots[i]].value) {
      assert s.have[spots[i]];
      var j :| 0 <= j < |spots| && spots[j] == spots[i] && FromPool(c, pool, c.shortIds[j], s.a[spots[i]].value);
      DistinctSpots(start, spots, i, j);
    }
    assert FilledPlaces(s) == FilledSpots(s.a, spots);
  }

  lemma NowInitialised(c: CompactBlock, mempool: Pool, extra: Pool, start: Available, spots: seq<nat>, m: map<nat, nat>)
    requires Placed(start, c, |c.prefilled|) && Spots(start, spots, |start|)
    requires |spots| == |m| == |c.shortIds| && Lookup(c, m, spots, |spots|)
    requires forall id | id in m :: m[id] < |start| && Listed(c, |c.shortIds|, id)
    requires NoneWraps(c, m, spots) <==> TxCount(c) <= MAX16 + 1
    ensures Fits(m, Start(start))
    ensures Initialised(c, mempool, extra, start, spots, m,
                        ScanExtra(c, m, extra, ScanPool(c, m, mempool, Start(start))))
  {
    hide Placed, Spots, Scanning, ScanPool, ScanExtra, Filled, Listed;
    var all := mempool + extra;
    ScanStart(c, all, m, start);
    ScanPoolKeeps(c, all, m, start, Start(start), mempool);
    var pooled := ScanPool(c, m, mempool, Start(start));
    ScanExtraKeeps(c, all, m, start, pooled, extra);
    if TxCount(c) <= MAX16 + 1 {
      NowFilled(c, all, start, spots, m, ScanExtra(c, m, extra, pooled));
    }
  }

  /** No transaction of the pool has the short identifier of another one of the block. */
  ghost predicate NoForeign(c: CompactBlock, vtx: seq<Tx>, pool: Pool)
    requires |vtx| == |c.shortIds| + 1
  {
    forall e, i | e in pool && 0 <= i < |c.shortIds| :: c.shortId(e.0) == c.shortIds[i] ==> e.1 == vtx[i + 1]
  }

  /** The transactions of the block for the places that are empty, in order. */
  ghost predicate IsMissing(a: Available, vtx: seq<Tx>, missing: seq<Tx>) {
    && |a| == |vtx| && |missing| == EmptyBelow(a, |a|)
    && forall i | 0 <= i < |a| && a[i].None? :: EmptyBelow(a, i) < |missing| && missing[EmptyBelow(a, i)] == vtx[i]
  }

  /** When only the first place is taken, the spot of the short identifier `i` is the place `i + 1`. */
  lemma {:induction false} OneTaken(a: Available, k: nat)
    requires 1 <= k <= |a| && a[0].Some? && forall q | 0 < q < |a| :: a[q].None?
    ensures EmptyBelow(a, k) == k - 1
  {
    if k == 1 { assert EmptyBelow(a, 1) == EmptyBelow(a, 0); } else { OneTaken(a, k - 1); }
  }

  lemma SpotsOfCompact(vtx: seq<Tx>, useWitness: bool, shortId: nat -> nat, start: Available, spots: seq<nat>)
    requires |vtx| > 0
    requires var c := Compact(vtx, useWitness, shortId); Placed(start, c, 1) && Spots(start, spots, |start|)
    ensures start[0] == Some(vtx[0]) && |start| == |vtx| && |spots| == |vtx| - 1
    ensures forall i | 0 <= i < |spots| :: spots[i] == i + 1
  {
    var c := Compact(vtx, useWitness, shortId);
    assert Position(c.prefilled, 0) == 0;
    forall q: nat | 0 < q < |start| ensures start[q].None? {
      assert !IsPosition(c.prefilled, 1, q);
    }
    hide Placed;
    forall i | 0 <= i < |spots| ensures spots[i] == i + 1 {
      assert spots[i] != 0;
      OneTaken(start, spots[i]);
    }
    OneTaken(start, |start|);
  }

  /** What is in place after InitData is the block's. */
  lemma InPlace(vtx: seq<Tx>, useWitness: bool, shortId: nat -> nat, pool: Pool, start: Available, spots: seq<nat>,
          a: Available, count: int)
    requires |vtx| > 0
    requires var c := Compact(vtx, useWitness, shortId);
      Placed(start, c, 1) && Filled(c, pool, start, spots, a, count) && NoForeign(c, vtx, pool)
    ensures |a| == |vtx| && forall i | 0 <= i < |a| && a[i].Some? :: a[i].value == vtx[i]
  {
    var c := Compact(vtx, useWitness, shortId);
    SpotsOfCompact(vtx, useWitness, shortId, start, spots);
    hide Placed, Spots;
    forall i | 0 <= i < |a| && a[i].Some? ensures a[i].value == vtx[i] {
      if i > 0 {
        assert spots[i - 1] == i;
        assert FromPool(c, pool, c.shortIds[i - 1], a[i].value);
      }
    }
  }

  /** The short identifiers of a block are distinct, no bucket of the table gets crowded, and no other transaction
      of the pools has one of the identifiers. */
  ghost predicate Clear(vtx: seq<Tx>, useWitness: bool, shortId: nat -> nat, pool: Pool, crowded: nat -> bool)
    requires |vtx| > 0
  {
    var c := Compact(vtx, useWitness, shortId);
    Distinct(c, |c.shortIds|) && (forall i | 0 <= i < |c.shortIds| :: !crowded(i)) && NoForeign(c, vtx, pool)
  }

  /** A block of up to 2^16 transactions, sent as a compact block, is rebuilt from the pools and the transactions that
      were missing, and its check decides. */
  method SendAndRebuild(vtx: seq<Tx>, useWitness: bool, shortId: nat -> nat, mempool: Pool, extra: Pool,
          crowded: nat -> bool, check: seq<Tx> -> Check)
    returns (status: Status, rebuilt: seq<Tx>)
    requires |vtx| > 0
    ensures vtx[0].isNull || |vtx| > MAX_COUNT ==> status == Invalid
    ensures !vtx[0].isNull && |vtx| <= MAX16 + 1 && Clear(vtx, useWitness, shortId, mempool + extra, crowded) ==>
      rebuilt == vtx && status == Judged(check(vtx))
  {
    hide Placed, Filled, Spots, IsFilled, EmptyBelow, Initialised, NoForeign, Distinct;
    var c := Compact(vtx, useWitness, shortId);
    CompactPlaceable(vtx, useWitness, shortId);
    var p := new PartiallyDownloadedBlock();
    ghost var start, spots, m, have;
    status, start, spots, m, have := p.InitData(c, mempool, extra, crowded);
    rebuilt := [];
    if status == Ok {
      ghost var s, a := Scan(p.txnAvailable, have, p.mempoolCount, p.extraCount), p.txnAvailable;
      Sized(c, mempool, extra, start, spots, m, s);
      if |vtx| <= MAX16 + 1 && NoForeign(c, vtx, mempool + extra) {
        InPlace(vtx, useWitness, shortId, mempool + extra, start, spots, p.txnAvailable, p.mempoolCount);
      }
      var missing := Requested(p.txnAvailable, vtx);
      status, rebuilt := p.FillBlock(missing, check);
      if |vtx| <= MAX16 + 1 && NoForeign(c, vtx, mempool + extra) { Rebuilt(a, vtx, missing, rebuilt); }
      Counted(a, vtx, missing);
    }
  }

  lemma CompactPlaceable(vtx: seq<Tx>, useWitness: bool, shortId: nat -> nat)
    requires |vtx| > 0
    ensures var c := Compact(vtx, useWitness, shortId);
      TxCount(c) == |vtx| && (Refused(c) <==> vtx[0].isNull || |vtx| > MAX_COUNT) && !Stuck(c)
  {
    var c := Compact(vtx, useWitness, shortId);
    assert Position(c.prefilled, 0) == 0;
  }

  lemma Sized(c: CompactBlock, mempool: Pool, extra: Pool, start: Available, spots: seq<nat>, m: map<nat, nat>, s: Scan)
    requires Initialised(c, mempool, extra, start, spots, m, s)
    ensures |s.a| == TxCount(c) && Placed(start, c, |c.prefilled|)
    ensures TxCount(c) <= MAX16 + 1 ==> Filled(c, mempool + extra, start, spots, s.a, s.count)
  {
  }

  lemma Counted(a: Available, vtx: seq<Tx>, missing: seq<Tx>)
    requires IsMissing(a, vtx, missing)
    ensures |missing| == EmptyBelow(a, |a|)
  {
  }

  lemma Rebuilt(a: Available, vtx: seq<Tx>, missing: seq<Tx>, rebuilt: seq<Tx>)
    requires IsMissing(a, vtx, missing) && IsFilled(a, missing, rebuilt, |a|)
    requires forall i | 0 <= i < |a| && a[i].Some? :: a[i].value == vtx[i]
    ensures rebuilt == vtx
  {
    hide EmptyBelow;
  }

  /** The transactions of a block for the empty places. */
  method Requested(a: Available, vtx: seq<Tx>) returns (missing: seq<Tx>)
    requires |a| == |vtx|
    ensures IsMissing(a, vtx, missing)
  {
    missing := [];
    for i := 0 to |a|
      invariant |missing| == EmptyBelow(a, i)
      invariant forall k | 0 <= k < i && a[k].None? ::
        EmptyBelow(a, k) < |missing| && missing[EmptyBelow(a, k)] == vtx[k]
    {
      if a[i].None? { missing := missing + [vtx[i]]; }
    }
  }

  // Blocks of more than 2^16 transactions

  /** With the transaction after the first 2^16 in the memory pool, the receiver of a longer block puts it in the place
      of the first. */
  method ReceiveWide(vtx: seq<Tx>, useWitness: bool, shortId: nat -> nat) returns (p: PartiallyDownloadedBlock)
    requires MAX16 + 1 < |vtx| <= MAX_COUNT && !vtx[0].isNull
    requires var c := Compact(vtx, useWitness, shortId); Distinct(c, |c.shortIds|)
    ensures |p.txnAvailable| == |vtx| && p.txnAvailable[0] == Some(vtx[MAX16 + 1])
  {
    hide Placed, Spots, Initialised, Distinct;
    var c := Compact(vtx, useWitness, shortId);
    CompactPlaceable(vtx, useWitness, shortId);
    var last := vtx[MAX16 + 1];
    var pool := [(if useWitness then last.witnessHash else last.hash, last)];
    p := new PartiallyDownloadedBlock();
    ghost var status, start, spots, m, have;
    status, start, spots, m, have := p.InitData(c, pool, [], _ => false);
    WideScan(vtx, useWitness, shortId, start, spots, m, Scan(p.txnAvailable, have, p.mempoolCount, p.extraCount));
  }

  lemma WideScan(vtx: seq<Tx>, useWitness: bool, shortId: nat -> nat, start: Available, spots: seq<nat>,
          m: map<nat, nat>, s: Scan)
    requires MAX16 + 1 < |vtx| <= MAX_COUNT
    requires var last := vtx[MAX16 + 1];
      Initialised(Compact(vtx, useWitness, shortId), [(if useWitness then last.witnessHash else last.hash, last)], [],
                  start, spots, m, s)
    ensures |s.a| == |vtx| && s.a[0] == Some(vtx[MAX16 + 1])
  {
    hide *;
    var c, last := Compact(vtx, useWitness, shortId), vtx[MAX16 + 1];
    var e := (if useWitness then last.witnessHash else last.hash, last);
    CompactIs(vtx, useWitness, shortId, MAX16);
    Parts(c, [e], [], start, spots, m, s, MAX16);
    SpotsOfCompact(vtx, useWitness, shortId, start, spots);
    OneMatch(c, m, e, start);
  }

  lemma CompactIs(vtx: seq<Tx>, useWitness: bool, shortId: nat -> nat, i: nat)
    requires i + 1 < |vtx|
    ensures var c, tx := Compact(vtx, useWitness, shortId), vtx[i + 1];
      && |c.shortIds| == |vtx| - 1 && |c.prefilled| == 1 && c.shortId == shortId
      && c.shortIds[i] == shortId(if useWitness then tx.witnessHash else tx.hash)
  {
  }

  lemma Parts(c: CompactBlock, mempool: Pool, extra: Pool, start: Available, spots: seq<nat>, m: map<nat, nat>, s: Scan,
          i: nat)
    requires Initialised(c, mempool, extra, start, spots, m, s) && i < |c.shortIds|
    ensures Placed(start, c, |c.prefilled|) && Spots(start, spots, |start|) && Fits(m, Start(start))
    ensures s == ScanExtra(c, m, extra, ScanPool(c, m, mempool, Start(start)))
    ensures |spots| == |c.shortIds| && c.shortIds[i] in m && m[c.shortIds[i]] == spots[i] % (MAX16 + 1)
  {
  }

  lemma OneMatch(c: CompactBlock, m: map<nat, nat>, e: (nat, Tx), start: Available)
    requires Fits(m, Start(start)) && c.shortId(e.0) in m
    ensures var s := ScanExtra(c, m, [], ScanPool(c, m, [e], Start(start)));
      |s.a| == |start| && s.a[m[c.shortId(e.0)]] == Some(e.1)
  {
    var next := MatchPool(c, m, e, Start(start));
    assert [e][1..] == [];
    assert ScanPool(c, m, [], next) == next;
  }

  /** It does go wrong: here is a block of 65537 transactions, and the place of the first holds the last. */
  method WideBlock() returns (vtx: seq<Tx>, p: PartiallyDownloadedBlock)
    ensures |vtx| == |p.txnAvailable| == 0x1_0001 && p.txnAvailable[0] == Some(vtx[0x1_0000]) != Some(vtx[0])
  {
    vtx := seq(0x1_0001, i requires 0 <= i < 0x1_0001 => Tx(i, i, false));
    p := ReceiveWide(vtx, true, h => h);
  }
}
