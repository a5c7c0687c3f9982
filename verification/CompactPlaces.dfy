/** Compact blocks: the places of prefilled transactions and short identifiers, and how transactions of the pools get
    there (src/blockencodings.cpp). */
module CompactPlaces {
  import opened BlockEncodings
  import opened Options

  datatype Tx = Tx(hash: nat, witnessHash: nat, isNull: bool)

  datatype Prefilled = Prefilled(index: nat, tx: Tx)

  /** The short identifier of a transaction hash depends on a key in the message. */
  datatype CompactBlock = CompactBlock(
    headerIsNull: bool, shortIds: seq<nat>, prefilled: seq<Prefilled>, shortId: nat -> nat)

  /** What a call returns, or that it does not. */
  datatype Status = Ok | Invalid | Failed | CheckBlockFailed | Endless

  /** The answers of CheckBlock. */
  datatype Check = Good | Corrupt | Bad

  /** GetMaxBlockWeight() / MIN_SERIALIZABLE_TRANSACTION_WEIGHT */
  const MAX_COUNT: nat := 8000000 / 40

  const TWO64: nat := 0x1_0000_0000_0000_0000

  type Pool = seq<(nat, Tx)>
  type Available = seq<Option<Tx>>

  function TxCount(c: CompactBlock): nat { |c.shortIds| + |c.prefilled| }

  /** A block as it is announced: the first transaction in full, the others by their short identifiers. */
  function Compact(vtx: seq<Tx>, useWitness: bool, shortId: nat -> nat): CompactBlock
    requires |vtx| > 0
  {
    CompactBlock(false, seq(|vtx| - 1, i requires 0 <= i < |vtx| - 1 =>
                              shortId(if useWitness then vtx[i + 1].witnessHash else vtx[i + 1].hash)),
                 [Prefilled(0, vtx[0])], shortId)
  }

  // Positions

  /** The place of a prefilled transaction: each index counts from the place after the one before. */
  function Position(p: seq<Prefilled>, i: nat): nat
    requires i < |p|
  {
    p[i].index + if i == 0 then 0 else Position(p, i - 1) + 1
  }

  /** The tests InitData makes on the prefilled transactions. */
  ghost predicate Placeable(c: CompactBlock, k: nat)
    requires k <= |c.prefilled|
  {
    forall i | 0 <= i < k ::
      !c.prefilled[i].tx.isNull && Position(c.prefilled, i) <= MAX16 && Position(c.prefilled, i) <= |c.shortIds| + i
  }

  /** How many places below `k` are empty. */
  function EmptyBelow(a: Available, k: nat): (n: nat)
    requires k <= |a|
    ensures n <= k
  {
    if k == 0 then 0 else EmptyBelow(a, k - 1) + if a[k - 1].None? then 1 else 0
  }

  lemma {:induction false} EmptyPut(a: Available, q: nat, tx: Tx, k: nat)
    requires q < |a| && k <= |a| && a[q].None?
    ensures EmptyBelow(a[q := Some(tx)], k) == EmptyBelow(a, k) - if q < k then 1 else 0
  {
    if k > 0 { EmptyPut(a, q, tx, k - 1); }
  }

  lemma {:induction false} AllEmpty(a: Available, k: nat)
    requires k <= |a| && forall i | 0 <= i < k :: a[i].None?
    ensures EmptyBelow(a, k) == k
  {
    if k > 0 { AllEmpty(a, k - 1); }
  }

  lemma {:induction false} EmptyMore(a: Available, j: nat, k: nat)
    requires j <= k <= |a|
    ensures EmptyBelow(a, j) <= EmptyBelow(a, k)
    ensures j < k && a[j].None? ==> EmptyBelow(a, j) < EmptyBelow(a, k)
    ensures EmptyBelow(a, j) < EmptyBelow(a, k) ==> exists i | j <= i < k :: a[i].None?
  {
    if j < k { EmptyMore(a, j, k - 1); }
  }

  ghost predicate IsPosition(p: seq<Prefilled>, k: nat, q: nat)
    requires k <= |p|
  {
    exists i | 0 <= i < k :: Position(p, i) == q
  }

  /** The first prefilled transactions are in their places, and every other place is empty. */
  ghost predicate Placed(a: Available, c: CompactBlock, k: nat) {
    && k <= |c.prefilled| && |a| == TxCount(c) && EmptyBelow(a, |a|) == |a| - k
    && (forall i | 0 <= i < k ::
          Position(c.prefilled, i) < |a| && a[Position(c.prefilled, i)] == Some(c.prefilled[i].tx))
    && (forall q: nat | q < |a| :: a[q].Some? ==> IsPosition(c.prefilled, k, q))
  }

  lemma PlacedStart(c: CompactBlock, a: Available)
    requires |a| == TxCount(c) && forall q | 0 <= q < |a| :: a[q].None?
    ensures Placeable(c, 0) && Placed(a, c, 0)
  {
    AllEmpty(a, |a|);
    hide EmptyBelow;
  }

  /** The next prefilled transaction passes its tests, or the whole message fails. */
  lemma PlaceableNext(c: CompactBlock, k: nat)
    requires k < |c.prefilled| && Placeable(c, k)
    ensures Position(c.prefilled, k) == c.prefilled[k].index + if k == 0 then 0 else Position(c.prefilled, k - 1) + 1
    ensures Placeable(c, k + 1) <==>
      && !c.prefilled[k].tx.isNull && Position(c.prefilled, k) <= MAX16 && Position(c.prefilled, k) <= |c.shortIds| + k
    ensures !Placeable(c, k + 1) ==> !Placeable(c, |c.prefilled|)
  {
  }

  lemma PlacedNext(a: Available, c: CompactBlock, k: nat)
    requires Placed(a, c, k) && k < |c.prefilled| && Placeable(c, k + 1)
    ensures var q := Position(c.prefilled, k); q < |a| && Placed(a[q := Some(c.prefilled[k].tx)], c, k + 1)
  {
    hide EmptyBelow, Position;
    var q := Position(c.prefilled, k);
    assert q <= |c.shortIds| + k;
    PositionsIncrease(c.prefilled, k);
    assert !IsPosition(c.prefilled, k, q);
    EmptyPut(a, q, c.prefilled[k].tx, |a|);
    forall p: nat | p < |a| ensures IsPosition(c.prefilled, k, p) || p == q ==> IsPosition(c.prefilled, k + 1, p) {
      if p == q { assert Position(c.prefilled, k) == p; }
    }
  }

  lemma {:induction false} PositionsIncrease(p: seq<Prefilled>, k: nat)
    requires k < |p|
    ensures forall i | 0 <= i < k :: Position(p, i) < Position(p, k)
  {
    if k > 0 { PositionsIncrease(p, k - 1); }
  }

  /** The places left for short identifiers: place `spots[i]` is the empty one with `i` empty ones before it. */
  ghost predicate Spots(a: Available, spots: seq<nat>, end: nat) {
    && end <= |a| && EmptyBelow(a, end) == |spots|
    && (forall i | 0 <= i < |spots| :: spots[i] < end && a[spots[i]].None? && EmptyBelow(a, spots[i]) == i)
    && (forall q: nat | q < end && a[q].None? :: q in spots)
  }

  lemma SpotsNext(a: Available, spots: seq<nat>, end: nat)
    requires Spots(a, spots, end) && end < |a|
    ensures Spots(a, if a[end].None? then spots + [end] else spots, end + 1)
  {
    assert EmptyBelow(a, end + 1) == EmptyBelow(a, end) + if a[end].None? then 1 else 0;
    if a[end].None? {
      SpotsMore(a, spots, end);
    }
  }

  lemma SpotsMore(a: Available, spots: seq<nat>, end: nat)
    requires Spots(a, spots, end) && end < |a| && a[end].None? && EmptyBelow(a, end + 1) == EmptyBelow(a, end) + 1
    ensures Spots(a, spots + [end], end + 1)
  {
    hide EmptyBelow;
    var more := spots + [end];
    forall i | 0 <= i < |more| ensures more[i] < end + 1 && a[more[i]].None? && EmptyBelow(a, more[i]) == i {
      if i < |spots| { assert more[i] == spots[i]; }
    }
    forall q: nat | q < end + 1 && a[q].None? ensures q in more {
      if q == end { assert more[|spots|] == end; } else { assert q in spots; }
    }
  }

  /** The places taken below `j` are among those below `k`. */
  lemma {:induction false} TakenMore(a: Available, j: nat, k: nat)
    requires j <= k <= |a|
    ensures j - EmptyBelow(a, j) <= k - EmptyBelow(a, k)
    ensures j < k && a[j].Some? ==> j - EmptyBelow(a, j) < k - EmptyBelow(a, k)
  {
    if j < k { TakenMore(a, j, k - 1); }
  }

  lemma {:induction false} PositionsSpread(p: seq<Prefilled>, i: nat, k: nat)
    requires i <= k < |p|
    ensures Position(p, i) >= i && Position(p, k) - Position(p, i) >= k - i
  {
    if i < k { PositionsSpread(p, i, k - 1); } else if i > 0 { PositionsSpread(p, i - 1, i - 1); }
  }

  /** At most 2^16 transactions can be prefilled; if so many are, they take the first places. */
  lemma PrefilledBound(c: CompactBlock, a: Available)
    requires Placeable(c, |c.prefilled|) && Placed(a, c, |c.prefilled|)
    ensures |c.prefilled| <= MAX16 + 1
    ensures |c.prefilled| == MAX16 + 1 ==>
      |a| >= MAX16 + 1 && forall q | 0 <= q < |a| :: a[q].Some? <==> q <= MAX16
  {
    hide EmptyBelow, Position;
    var p := c.prefilled;
    if p != [] { PositionsSpread(p, 0, |p| - 1); }
    if |p| == MAX16 + 1 {
      forall i | 0 <= i <= MAX16 ensures Position(p, i) == i { PositionsSpread(p, i, MAX16); }
      assert Position(p, MAX16) == MAX16;
      forall q: nat | q <= MAX16 ensures a[q].Some? { assert Position(p, q) == q; }
    }
  }

  /** The search for the next empty place is at an offset that counts the places taken. */
  lemma OffsetCounts(c: CompactBlock, a: Available, spots: seq<nat>, i: nat, offset: nat)
    requires Placed(a, c, |c.prefilled|) && Spots(a, spots, i + offset) && |spots| == i < |c.shortIds|
    ensures i + offset < |a|
    ensures a[i + offset].Some? ==> offset < |c.prefilled|
  {
    SpotsRoom(a, spots, i + offset);
    TakenMore(a, i + offset, |a|);
  }

  /** When the first 2^16 places are taken, the search never gets past them. */
  lemma NeverFound(c: CompactBlock, a: Available, spots: seq<nat>, i: nat, offset: nat)
    requires Placeable(c, |c.prefilled|) && Placed(a, c, |c.prefilled|) && |c.prefilled| == MAX16 + 1
    requires Spots(a, spots, i + offset) && |spots| == i < |c.shortIds| && offset <= MAX16
    ensures i == 0 && offset < |a| && a[offset].Some?
  {
    PrefilledBound(c, a);
    hide Placed, Placeable;
    if i > 0 {
      assert spots[0] > MAX16;
      TakenMore(a, 0, MAX16 + 1);
      EmptyMore(a, 0, MAX16 + 1);
      TakenMore(a, MAX16 + 1, i + offset);
    }
  }

  lemma SpotsStart(c: CompactBlock, a: Available)
    ensures Spots(a, [], 0) && Mapped(c, map[], [], 0)
  {
  }

  lemma SpotsRoom(a: Available, spots: seq<nat>, end: nat)
    requires Spots(a, spots, end) && |spots| < EmptyBelow(a, |a|)
    ensures end < |a|
  {
  }

  lemma SpotsEnd(a: Available, spots: seq<nat>, end: nat)
    requires Spots(a, spots, end) && |spots| == EmptyBelow(a, |a|)
    ensures Spots(a, spots, |a|)
  {
    forall q: nat | end <= q < |a| ensures a[q].Some? {
      EmptyMore(a, end, q);
      EmptyMore(a, q, |a|);
    }
  }

  /** The prefilled transactions and the short identifiers share out the places. */
  lemma Partition(c: CompactBlock, start: Available, spots: seq<nat>, q: nat)
    requires Placed(start, c, |c.prefilled|) && Spots(start, spots, |start|) && q < TxCount(c)
    ensures IsPosition(c.prefilled, |c.prefilled|, q) <==> q !in spots
  {
    hide EmptyBelow, Position;
  }

  // The table of short identifiers

  ghost predicate Listed(c: CompactBlock, k: nat, id: nat)
    requires k <= |c.shortIds|
  {
    exists i | 0 <= i < k :: c.shortIds[i] == id
  }

  ghost predicate Distinct(c: CompactBlock, k: nat)
    requires k <= |c.shortIds|
  {
    forall i, j | 0 <= i < j < k :: c.shortIds[i] != c.shortIds[j]
  }

  /** Every identifier has the place of its spot, which the table holds in 16 bits. */
  ghost predicate Lookup(c: CompactBlock, m: map<nat, nat>, spots: seq<nat>, k: nat)
    requires k <= |c.shortIds| && k <= |spots|
  {
    forall i | 0 <= i < k :: c.shortIds[i] in m && m[c.shortIds[i]] == spots[i] % (MAX16 + 1)
  }

  /** The table holds the first identifiers, and as many entries as were put in only if they are distinct. */
  ghost predicate Mapped(c: CompactBlock, m: map<nat, nat>, spots: seq<nat>, k: nat) {
    && k <= |c.shortIds| && |spots| == k && |m| <= k
    && (forall id :: id in m <==> Listed(c, k, id))
    && (|m| == k <==> Distinct(c, k))
    && (Distinct(c, k) ==> Lookup(c, m, spots, k))
  }

  lemma ListedNext(c: CompactBlock, k: nat, id: nat)
    requires k < |c.shortIds|
    ensures Listed(c, k + 1, id) <==> Listed(c, k, id) || id == c.shortIds[k]
  {
    if id == c.shortIds[k] { assert c.shortIds[k] == id; }
  }

  lemma MappedNext(c: CompactBlock, m: map<nat, nat>, spots: seq<nat>, k: nat, q: nat)
    requires Mapped(c, m, spots, k) && k < |c.shortIds|
    ensures Mapped(c, m[c.shortIds[k] := q % (MAX16 + 1)], spots + [q], k + 1)
  {
    var id := c.shortIds[k];
    var now, more := m[id := q % (MAX16 + 1)], spots + [q];
    forall x ensures x in now <==> Listed(c, k + 1, x) { ListedNext(c, k, x); }
    assert now.Keys == m.Keys + {id};
    DistinctNext(c, k);
    hide Listed, Distinct, Lookup;
    if Distinct(c, k + 1) { LookupNext(c, m, spots, k, q); }
  }

  lemma DistinctNext(c: CompactBlock, k: nat)
    requires k < |c.shortIds|
    ensures Distinct(c, k + 1) <==> Distinct(c, k) && !Listed(c, k, c.shortIds[k])
  {
  }

  lemma LookupNext(c: CompactBlock, m: map<nat, nat>, spots: seq<nat>, k: nat, q: nat)
    requires k < |c.shortIds| && |spots| == k && Lookup(c, m, spots, k) && Distinct(c, k + 1)
    ensures Lookup(c, m[c.shortIds[k] := q % (MAX16 + 1)], spots + [q], k + 1)
  {
    var now, more := m[c.shortIds[k] := q % (MAX16 + 1)], spots + [q];
    forall i | 0 <= i < k + 1 ensures c.shortIds[i] in now && now[c.shortIds[i]] == more[i] % (MAX16 + 1) {
      if i < k { assert more[i] == spots[i]; }
    }
  }

  /** The table holds the spot of every identifier. */
  ghost predicate NoneWraps(c: CompactBlock, m: map<nat, nat>, spots: seq<nat>)
    requires |spots| == |c.shortIds|
  {
    forall i | 0 <= i < |spots| :: c.shortIds[i] in m && m[c.shortIds[i]] == spots[i]
  }

  /** No place wraps around if and only if the block has at most 2^16 transactions. */
  lemma PlacesRightIff(c: CompactBlock, start: Available, m: map<nat, nat>, spots: seq<nat>)
    requires Placeable(c, |c.prefilled|) && Placed(start, c, |c.prefilled|) && Spots(start, spots, |start|)
    requires |spots| == |c.shortIds| && Lookup(c, m, spots, |spots|)
    ensures NoneWraps(c, m, spots) <==> TxCount(c) <= MAX16 + 1
    ensures TxCount(c) > MAX16 + 1 ==> exists i | 0 <= i < |spots| :: spots[i] == MAX16 + 1 && m[c.shortIds[i]] == 0
  {
    if TxCount(c) > MAX16 + 1 {
      Partition(c, start, spots, MAX16 + 1);
      hide Placed, Spots, EmptyBelow, Position;
      assert forall i | 0 <= i < |c.prefilled| :: Position(c.prefilled, i) <= MAX16;
      assert MAX16 + 1 in spots;
      var i :| 0 <= i < |spots| && spots[i] == MAX16 + 1;
      assert m[c.shortIds[i]] == 0;
    } else {
      hide Placed, EmptyBelow;
      forall i | 0 <= i < |spots| ensures m[c.shortIds[i]] == spots[i] { assert spots[i] < |start|; }
    }
  }

  // Filling from the pools

  /** The places, those that a pool transaction went to, how many of them hold one, and the count of the second pool. */
  datatype Scan = Scan(a: Available, have: seq<bool>, count: int, extra: nat)

  predicate Fits(m: map<nat, nat>, s: Scan) {
    |s.a| == |s.have| && forall id | id in m :: m[id] < |s.a|
  }

  /** One transaction of the memory pool: two that match the same place cancel out. */
  function MatchPool(c: CompactBlock, m: map<nat, nat>, e: (nat, Tx), s: Scan): (r: Scan)
    requires Fits(m, s)
    ensures Fits(m, r)
  {
    var id := c.shortId(e.0);
    if id !in m then s
    else if !s.have[m[id]] then Scan(s.a[m[id] := Some(e.1)], s.have[m[id] := true], s.count + 1, s.extra)
    else if s.a[m[id]].Some? then s.(a := s.a[m[id] := None], count := s.count - 1)
    else s
  }

  /** One of the extra transactions: it cancels out one with another witness hash. The count is unsigned. */
  function MatchExtra(c: CompactBlock, m: map<nat, nat>, e: (nat, Tx), s: Scan): (r: Scan)
    requires Fits(m, s)
    ensures Fits(m, r)
  {
    var id := c.shortId(e.0);
    if id !in m then s
    else if !s.have[m[id]] then
      Scan(s.a[m[id] := Some(e.1)], s.have[m[id] := true], s.count + 1, (s.extra + 1) % TWO64)
    else if s.a[m[id]].Some? && s.a[m[id]].value.witnessHash != e.1.witnessHash then
      Scan(s.a[m[id] := None], s.have, s.count - 1, (s.extra + TWO64 - 1) % TWO64)
    else s
  }

  /** Both scans stop as soon as every identifier is matched. */
  function ScanPool(c: CompactBlock, m: map<nat, nat>, pool: Pool, s: Scan): (r: Scan)
    requires Fits(m, s)
    ensures Fits(m, r)
  {
    if pool == [] then s
    else
      var next := MatchPool(c, m, pool[0], s);
      if next.count == |m| then next else ScanPool(c, m, pool[1..], next)
  }

  function ScanExtra(c: CompactBlock, m: map<nat, nat>, pool: Pool, s: Scan): (r: Scan)
    requires Fits(m, s)
    ensures Fits(m, r)
  {
    if pool == [] then s
    else
      var next := MatchExtra(c, m, pool[0], s);
      if next.count == |m| then next else ScanExtra(c, m, pool[1..], next)
  }

  function Start(a: Available): Scan { Scan(a, seq(|a|, _ => false), 0, 0) }

  /** Some transaction of the pool has this short identifier. */
  ghost predicate FromPool(c: CompactBlock, pool: Pool, id: nat, tx: Tx) {
    exists e | e in pool :: c.shortId(e.0) == id && e.1 == tx
  }

  /** Some identifier has this place, and what is there matches it. */
  ghost predicate Matched(c: CompactBlock, pool: Pool, m: map<nat, nat>, p: nat, o: Option<Tx>) {
    exists id | id in m :: m[id] == p && (o.Some? ==> FromPool(c, pool, id, o.value))
  }

  ghost function FilledPlaces(s: Scan): set<int>
    requires |s.a| == |s.have|
  {
    set p | 0 <= p < |s.a| && s.have[p] && s.a[p].Some?
  }

  /** While scanning: only places of identifiers are touched, with transactions that match, and the count is exact. */
  ghost predicate Scanning(c: CompactBlock, pool: Pool, m: map<nat, nat>, start: Available, s: Scan) {
    && Fits(m, s) && |s.a| == |start|
    && (forall p | 0 <= p < |s.a| && !s.have[p] :: s.a[p] == start[p])
    && (forall p | 0 <= p < |s.a| && s.have[p] :: Matched(c, pool, m, p, s.a[p]))
    && s.count == |FilledPlaces(s)|
  }

  lemma ScanStart(c: CompactBlock, pool: Pool, m: map<nat, nat>, start: Available)
    requires forall id | id in m :: m[id] < |start|
    ensures Scanning(c, pool, m, start, Start(start))
  {
    assert FilledPlaces(Start(start)) == {};
  }

  /** A first match fills a place. */
  lemma PutKeeps(c: CompactBlock, pool: Pool, m: map<nat, nat>, start: Available, s: Scan, id: nat, tx: Tx, extra: nat)
    requires Scanning(c, pool, m, start, s) && id in m && !s.have[m[id]] && FromPool(c, pool, id, tx)
    ensures Scanning(c, pool, m, start, Scan(s.a[m[id] := Some(tx)], s.have[m[id] := true], s.count + 1, extra))
  {
    hide FromPool;
    var next := Scan(s.a[m[id] := Some(tx)], s.have[m[id] := true], s.count + 1, extra);
    assert Matched(c, pool, m, m[id], Some(tx));
    assert FilledPlaces(next) == FilledPlaces(s) + {m[id]};
    hide Matched, FilledPlaces;
  }

  /** A second one empties it. */
  lemma DropKeeps(c: CompactBlock, pool: Pool, m: map<nat, nat>, start: Available, s: Scan, id: nat, extra: nat)
    requires Scanning(c, pool, m, start, s) && id in m && s.have[m[id]] && s.a[m[id]].Some?
    ensures Scanning(c, pool, m, start, Scan(s.a[m[id] := None], s.have, s.count - 1, extra))
  {
    hide FromPool;
    var next := Scan(s.a[m[id] := None], s.have, s.count - 1, extra);
    assert Matched(c, pool, m, m[id], None);
    assert FilledPlaces(next) == FilledPlaces(s) - {m[id]};
    hide Matched, FilledPlaces;
  }

  lemma FromThis(c: CompactBlock, pool: Pool, e: (nat, Tx))
    requires e in pool
    ensures FromPool(c, pool, c.shortId(e.0), e.1)
  {
  }

  lemma MatchPoolKeeps(c: CompactBlock, pool: Pool, m: map<nat, nat>, start: Available, s: Scan, e: (nat, Tx))
    requires Scanning(c, pool, m, start, s) && e in pool
    ensures Fits(m, s) && Scanning(c, pool, m, start, MatchPool(c, m, e, s))
  {
    ScanFits(c, pool, m, start, s);
    hide Scanning, FromPool;
    var id := c.shortId(e.0);
    FromThis(c, pool, e);
    if id in m {
      if !s.have[m[id]] {
        PutKeeps(c, pool, m, start, s, id, e.1, s.extra);
      } else if s.a[m[id]].Some? {
        DropKeeps(c, pool, m, start, s, id, s.extra);
      }
    }
  }

  lemma MatchExtraKeeps(c: CompactBlock, pool: Pool, m: map<nat, nat>, start: Available, s: Scan, e: (nat, Tx))
    requires Scanning(c, pool, m, start, s) && e in pool
    ensures Fits(m, s) && Scanning(c, pool, m, start, MatchExtra(c, m, e, s))
  {
    ScanFits(c, pool, m, start, s);
    hide Scanning, FromPool;
    var id := c.shortId(e.0);
    FromThis(c, pool, e);
    if id in m {
      if !s.have[m[id]] {
        PutKeeps(c, pool, m, start, s, id, e.1, (s.extra + 1) % TWO64);
      } else if s.a[m[id]].Some? && s.a[m[id]].value.witnessHash != e.1.witnessHash {
        DropKeeps(c, pool, m, start, s, id, (s.extra + TWO64 - 1) % TWO64);
      }
    }
  }

  lemma {:induction false} ScanPoolKeeps(c: CompactBlock, all: Pool, m: map<nat, nat>, start: Available, s: Scan,
          pool: Pool)
    requires Scanning(c, all, m, start, s) && forall i | 0 <= i < |pool| :: pool[i] in all
    ensures Fits(m, s) && Scanning(c, all, m, start, ScanPool(c, m, pool, s))
    decreases |pool|
  {
    ScanFits(c, all, m, start, s);
    hide Scanning, MatchPool;
    if pool != [] {
      MatchPoolKeeps(c, all, m, start, s, pool[0]);
      var next := MatchPool(c, m, pool[0], s);
      if next.count != |m| { ScanPoolKeeps(c, all, m, start, next, pool[1..]); }
    }
  }

  lemma {:induction false} ScanExtraKeeps(c: CompactBlock, all: Pool, m: map<nat, nat>, start: Available, s: Scan,
          pool: Pool)
    requires Scanning(c, all, m, start, s) && forall i | 0 <= i < |pool| :: pool[i] in all
    ensures Fits(m, s) && Scanning(c, all, m, start, ScanExtra(c, m, pool, s))
    decreases |pool|
  {
    ScanFits(c, all, m, start, s);
    hide Scanning, MatchExtra;
    if pool != [] {
      MatchExtraKeeps(c, all, m, start, s, pool[0]);
      var next := MatchExtra(c, m, pool[0], s);
      if next.count != |m| { ScanExtraKeeps(c, all, m, start, next, pool[1..]); }
    }
  }

  lemma ScanFits(c: CompactBlock, all: Pool, m: map<nat, nat>, start: Available, s: Scan)
    requires Scanning(c, all, m, start, s)
    ensures Fits(m, s)
  {
  }

  // The count of extra transactions

  /** Places filled from the second pool, and places that the first one filled and the second one emptied. */
  ghost function Gained(before: Scan, s: Scan): set<int>
    requires |before.have| == |s.have| == |s.a|
  {
    set p | 0 <= p < |s.a| && !before.have[p] && s.have[p] && s.a[p].Some?
  }

  ghost function Lost(before: Scan, s: Scan): set<int>
    requires |before.a| == |before.have| == |s.a|
  {
    set p | 0 <= p < |s.a| && before.have[p] && before.a[p].Some? && s.a[p].None?
  }

  ghost predicate ExtraCounts(before: Scan, s: Scan) {
    && |before.a| == |before.have| == |s.a| == |s.have|
    && (forall p | 0 <= p < |s.a| && before.have[p] :: s.have[p] && (s.a[p] == before.a[p] || s.a[p].None?))
    && s.extra == (|Gained(before, s)| - |Lost(before, s)|) % TWO64
  }

  lemma Wrapped(x: int, n: nat)
    requires n == x % TWO64
    ensures (n + 1) % TWO64 == (x + 1) % TWO64 && (n + TWO64 - 1) % TWO64 == (x - 1) % TWO64
  {
  }

  lemma ExtraPut(before: Scan, s: Scan, p: nat, tx: Tx)
    requires ExtraCounts(before, s) && p < |s.a| && !s.have[p]
    ensures ExtraCounts(before, Scan(s.a[p := Some(tx)], s.have[p := true], s.count + 1, (s.extra + 1) % TWO64))
  {
    var next := Scan(s.a[p := Some(tx)], s.have[p := true], s.count + 1, (s.extra + 1) % TWO64);
    assert Gained(before, next) == Gained(before, s) + {p} && p !in Gained(before, s);
    assert Lost(before, next) == Lost(before, s);
    Wrapped(|Gained(before, s)| - |Lost(before, s)|, s.extra);
    hide Gained, Lost;
  }

  lemma ExtraDrop(before: Scan, s: Scan, p: nat)
    requires ExtraCounts(before, s) && p < |s.a| && s.have[p] && s.a[p].Some?
    ensures ExtraCounts(before, Scan(s.a[p := None], s.have, s.count - 1, (s.extra + TWO64 - 1) % TWO64))
  {
    var next := Scan(s.a[p := None], s.have, s.count - 1, (s.extra + TWO64 - 1) % TWO64);
    if before.have[p] {
      assert Lost(before, next) == Lost(before, s) + {p} && p !in Lost(before, s);
      assert Gained(before, next) == Gained(before, s);
    } else {
      assert Gained(before, next) == Gained(before, s) - {p} && p in Gained(before, s);
      assert Lost(before, next) == Lost(before, s);
    }
    Wrapped(|Gained(before, s)| - |Lost(before, s)|, s.extra);
    hide Gained, Lost;
  }

  /** The extra transaction contradicts what the memory pool had for the place. */
  predicate Conflicts(c: CompactBlock, m: map<nat, nat>, e: (nat, Tx), p: nat, tx: Tx) {
    c.shortId(e.0) in m && m[c.shortId(e.0)] == p && tx.witnessHash != e.1.witnessHash
  }

  lemma ExtraStep(c: CompactBlock, m: map<nat, nat>, before: Scan, s: Scan, e: (nat, Tx))
    requires ExtraCounts(before, s) && Fits(m, s)
    ensures var next := MatchExtra(c, m, e, s);
      && ExtraCounts(before, next)
      && forall p | 0 <= p < |s.a| && before.have[p] && before.a[p].Some? ::
           p in Lost(before, next) <==> p in Lost(before, s) || Conflicts(c, m, e, p, before.a[p].value)
  {
    var id := c.shortId(e.0);
    if id in m {
      if !s.have[m[id]] {
        ExtraPut(before, s, m[id], e.1);
      } else if s.a[m[id]].Some? && s.a[m[id]].value.witnessHash != e.1.witnessHash {
        ExtraDrop(before, s, m[id]);
      }
    }
  }

  /** How many extra transactions are looked at. */
  function LookedAt(c: CompactBlock, m: map<nat, nat>, pool: Pool, s: Scan): (n: nat)
    requires Fits(m, s)
    ensures n <= |pool|
  {
    if pool == [] then 0
    else
      var next := MatchExtra(c, m, pool[0], s);
      if next.count == |m| then 1 else 1 + LookedAt(c, m, pool[1..], next)
  }

  lemma {:induction false} ExtraAll(c: CompactBlock, m: map<nat, nat>, before: Scan, s: Scan, pool: Pool, p: nat)
    requires ExtraCounts(before, s) && Fits(m, s)
    ensures ExtraCounts(before, ScanExtra(c, m, pool, s))
    ensures p < |s.a| && before.have[p] && before.a[p].Some? ==>
      (p in Lost(before, ScanExtra(c, m, pool, s)) <==>
       || p in Lost(before, s)
       || exists k | 0 <= k < LookedAt(c, m, pool, s) :: Conflicts(c, m, pool[k], p, before.a[p].value))
    decreases |pool|
  {
    hide ExtraCounts, MatchExtra, Conflicts, Lost;
    SameSize(before, s);
    if pool != [] {
      var next := MatchExtra(c, m, pool[0], s);
      ExtraStep(c, m, before, s, pool[0]);
      SameSize(before, next);
      if next.count != |m| {
        ExtraAll(c, m, before, next, pool[1..], p);
        var n := LookedAt(c, m, pool[1..], next);
        assert forall k | 0 <= k < n :: pool[1..][k] == pool[k + 1];
        assert forall k | 1 <= k < n + 1 :: pool[k] == pool[1..][k - 1];
      }
    }
  }

  lemma SameSize(before: Scan, s: Scan)
    requires ExtraCounts(before, s)
    ensures |before.a| == |before.have| == |s.a| == |s.have|
  {
  }

  /** The count of extra transactions is the number of places they fill, unless one of those looked at contradicted
      a transaction that the memory pool had put in its place. */
  lemma ExtraCountIff(c: CompactBlock, m: map<nat, nat>, before: Scan, pool: Pool)
    requires Fits(m, before) && before.extra == 0 && |before.a| <= MAX_COUNT
    ensures var s := ScanExtra(c, m, pool, before);
      && |s.a| == |s.have| == |before.a|
      && (s.extra == |Gained(before, s)| <==>
          !exists k, p | 0 <= k < LookedAt(c, m, pool, before) && 0 <= p < |before.a| ::
             before.have[p] && before.a[p].Some? && Conflicts(c, m, pool[k], p, before.a[p].value))
  {
    hide Conflicts, ScanExtra, LookedAt;
    var s := ScanExtra(c, m, pool, before);
    assert Gained(before, before) == {} && Lost(before, before) == {};
    forall p | 0 <= p < |before.a| && before.have[p] && before.a[p].Some?
      ensures ExtraCounts(before, s)
      ensures p in Lost(before, s)
         <==> exists k | 0 <= k < LookedAt(c, m, pool, before) :: Conflicts(c, m, pool[k], p, before.a[p].value)
    {
      ExtraAll(c, m, before, before, pool, p);
    }
    ExtraAll(c, m, before, before, pool, 0);
    FewPlaces(Gained(before, s), |s.a|);
    FewPlaces(Lost(before, s), |s.a|);
    CountsIff(before, s);
  }

  /** One contradiction, and the unsigned count goes below zero. */
  lemma ExtraUnderflow(c: CompactBlock, m: map<nat, nat>, start: Available, e: (nat, Tx), f: (nat, Tx))
    requires Fits(m, Start(start)) && c.shortId(e.0) == c.shortId(f.0) && c.shortId(e.0) in m
    requires e.1.witnessHash != f.1.witnessHash
    ensures MatchExtra(c, m, f, MatchPool(c, m, e, Start(start))).extra == TWO64 - 1
  {
  }

  lemma CountsIff(before: Scan, s: Scan)
    requires ExtraCounts(before, s) && |Gained(before, s)| < TWO64 && |Lost(before, s)| < TWO64
    ensures s.extra == |Gained(before, s)| <==> Lost(before, s) == {}
  {
  }

  lemma {:induction false} FewPlaces(s: set<int>, n: nat)
    requires forall p | p in s :: 0 <= p < n
    ensures |s| <= n
  {
    if n > 0 {
      FewPlaces(s - {n - 1}, n - 1);
    } else {
      assert forall p :: p !in s;
    }
  }
}
