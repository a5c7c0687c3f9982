/** The tables of the address manager as values, and the parts of its consistency check (src/addrman.h,
    CAddrMan::Check_ in src/addrman.cpp). */
module AddrTables {
  type NetAddr = nat
  datatype Service = Service(ip: NetAddr, port: nat)

  datatype AddrInfo = AddrInfo(
    addr: Service, nServices: nat, nTime: int, source: NetAddr, nLastSuccess: int, nAttempts: int,
    nLastTry: int, nLastCountAttempt: int, nRefCount: int, fInTried: bool, nRandomPos: int)

  type Infos = map<int, AddrInfo>
  /** A bucket and a position in it. */
  type Slot = (nat, nat)
  /** A table of buckets; a slot without an entry holds -1 in the source. */
  type Table = map<Slot, int>

  const TRIED_BUCKET_COUNT: nat := 256
  const NEW_BUCKET_COUNT: nat := 1024
  const BUCKET_SIZE: nat := 64
  const NEW_BUCKETS_PER_ADDRESS: nat := 8

  /** The hashes that choose buckets, for one secret key. */
  datatype Hashing = Hashing(
    triedHash: Service -> nat, newHash: (Service, NetAddr) -> nat, positionHash: (Service, bool, nat) -> nat)

  function GetTriedBucket(hs: Hashing, a: Service): nat { hs.triedHash(a) % TRIED_BUCKET_COUNT }

  function GetNewBucket(hs: Hashing, a: Service, source: NetAddr): nat { hs.newHash(a, source) % NEW_BUCKET_COUNT }

  function GetBucketPosition(hs: Hashing, a: Service, fNew: bool, bucket: nat): nat {
    hs.positionHash(a, fNew, bucket) % BUCKET_SIZE
  }

  function TriedSlot(hs: Hashing, a: Service): Slot {
    var b := GetTriedBucket(hs, a);
    (b, GetBucketPosition(hs, a, false, b))
  }

  function NewSlot(hs: Hashing, a: Service, bucket: nat): Slot { (bucket, GetBucketPosition(hs, a, true, bucket)) }

  // The parts of the consistency check

  /** Every entry is found under its address, and nothing else is. */
  ghost predicate Indexed(infos: Infos, addrs: map<NetAddr, int>) {
    && (forall id | id in infos :: infos[id].addr.ip in addrs && addrs[infos[id].addr.ip] == id)
    && (forall ip | ip in addrs :: addrs[ip] in infos && infos[addrs[ip]].addr.ip == ip)
  }

  /** `vRandom` lists every entry once, and every entry knows its position there. */
  ghost predicate Shuffled(infos: Infos, random: seq<int>) {
    && (forall id | id in infos :: 0 <= infos[id].nRandomPos < |random| && random[infos[id].nRandomPos] == id)
    && (forall i | 0 <= i < |random| :: random[i] in infos && infos[random[i]].nRandomPos == i)
  }

  /** The tried table holds the tried entries, each at its computed slot. */
  ghost predicate TriedOk(hs: Hashing, infos: Infos, tried: Table) {
    && (forall s: Slot | s in tried ::
          tried[s] in infos && infos[tried[s]].fInTried && s == TriedSlot(hs, infos[tried[s]].addr))
    && (forall id | id in infos && infos[id].fInTried ::
          TriedSlot(hs, infos[id].addr) in tried && tried[TriedSlot(hs, infos[id].addr)] == id)
  }

  /** The slots that hold an entry. */
  ghost function Slots(t: Table, id: int): set<Slot> { set s | s in t && t[s] == id }

  /** The new table holds entries that are not tried, at computed slots, and reference counts are exact. */
  ghost predicate NewOk(hs: Hashing, infos: Infos, news: Table) {
    && (forall s: Slot | s in news :: news[s] in infos && !infos[news[s]].fInTried
          && s.0 < NEW_BUCKET_COUNT && s == NewSlot(hs, infos[news[s]].addr, s.0))
    && (forall id | id in infos :: infos[id].nRefCount == |Slots(news, id)|)
  }

  /** Every entry that is not tried, but for those named, is in one to eight new buckets. */
  ghost predicate Referenced(infos: Infos, limbo: set<int>) {
    forall id | id in infos && !infos[id].fInTried ::
      infos[id].nRefCount <= NEW_BUCKETS_PER_ADDRESS && (id !in limbo ==> infos[id].nRefCount >= 1)
  }

  ghost function TriedIds(infos: Infos): set<int> { set id | id in infos && infos[id].fInTried }

  ghost function NewIds(infos: Infos): set<int> { set id | id in infos && !infos[id].fInTried }

  /** Times are not negative, and a tried entry has had a success. */
  ghost predicate Timed(infos: Infos) {
    forall id | id in infos ::
      && infos[id].nLastTry >= 0 && infos[id].nLastSuccess >= 0
      && (infos[id].fInTried ==> infos[id].nLastSuccess != 0)
  }

  /** The two entries are the same but for their positions in `vRandom`. */
  ghost predicate SameButPosition(a: AddrInfo, b: AddrInfo) { b == a.(nRandomPos := b.nRandomPos) }

  /** Everything is still there but the entries named, up to positions in `vRandom`. */
  ghost predicate KeptBut(was: Infos, now: Infos, ids: set<int>) {
    forall id | id !in ids :: (id in was <==> id in now) && (id in was ==> SameButPosition(was[id], now[id]))
  }

  lemma NoSlots(hs: Hashing, infos: Infos, news: Table, id: int)
    requires NewOk(hs, infos, news) && (id !in infos || infos[id].fInTried)
    ensures Slots(news, id) == {}
  {
  }

  lemma Unlisted(t: Table, id: int)
    requires |Slots(t, id)| == 0
    ensures forall s: Slot | s in t :: t[s] != id
  {
    assert forall s: Slot | s in t && t[s] == id :: s in Slots(t, id);
  }

  lemma {:induction false} SubsetSize<T>(a: set<T>, b: set<T>)
    requires a <= b
    ensures |a| <= |b|
    decreases |a|
  {
    if a != {} {
      var x :| x in a;
      SubsetSize(a - {x}, b - {x});
    }
  }

  lemma SlotsRemoved(t: Table, s: Slot, id: int)
    requires s in t
    ensures Slots(t - {s}, id) == Slots(t, id) - {s}
    ensures t[s] == id ==> |Slots(t - {s}, id)| == |Slots(t, id)| - 1
    ensures t[s] != id ==> Slots(t - {s}, id) == Slots(t, id)
  {
    if t[s] != id { assert s !in Slots(t, id); }
  }

  lemma SlotsPut(t: Table, s: Slot, v: int, id: int)
    requires s !in t
    ensures v == id ==> Slots(t[s := v], id) == Slots(t, id) + {s} && |Slots(t[s := v], id)| == |Slots(t, id)| + 1
    ensures v != id ==> Slots(t[s := v], id) == Slots(t, id)
  {
    assert s !in Slots(t, id);
  }

  /** No entry is new, and what an entry says of its address is as it was. */
  ghost predicate Inherits(was: Infos, now: Infos) {
    forall id | id in now :: id in was && SameStatistics(was[id], now[id])
  }

  ghost predicate SameStatistics(a: AddrInfo, b: AddrInfo) {
    b == a.(nRefCount := b.nRefCount, fInTried := b.fInTried, nRandomPos := b.nRandomPos)
  }

  lemma InheritsTwice(a: Infos, b: Infos, c: Infos)
    requires Inherits(a, b) && Inherits(b, c)
    ensures Inherits(a, c)
  {
  }

  lemma InheritsBut(was: Infos, now: Infos, ids: set<int>)
    requires KeptBut(was, now, ids)
    requires forall id | id in ids && id in now :: id in was && SameStatistics(was[id], now[id])
    ensures Inherits(was, now)
  {
  }

  // What the tables depend on

  /** The same entries, with the same addresses and in as many buckets. */
  ghost predicate Alike(was: Infos, now: Infos) {
    forall id :: (id in was <==> id in now) && (id in was ==> AlikeAt(was[id], now[id]))
  }

  ghost predicate AlikeAt(a: AddrInfo, b: AddrInfo) {
    b.addr == a.addr && b.nRefCount == a.nRefCount && b.fInTried == a.fInTried
  }

  lemma AlikeTables(hs: Hashing, was: Infos, now: Infos, addrs: map<NetAddr, int>, tried: Table, news: Table)
    requires Alike(was, now)
    ensures Indexed(was, addrs) ==> Indexed(now, addrs)
    ensures TriedOk(hs, was, tried) ==> TriedOk(hs, now, tried)
    ensures NewOk(hs, was, news) ==> NewOk(hs, now, news)
  {
    assert forall id | id in was :: id in now && AlikeAt(was[id], now[id]);
    assert forall id | id in now :: id in was && AlikeAt(was[id], now[id]);
  }

  lemma AlikeCounts(was: Infos, now: Infos, limbo: set<int>)
    requires Alike(was, now)
    ensures TriedIds(now) == TriedIds(was) && NewIds(now) == NewIds(was)
    ensures Referenced(was, limbo) ==> Referenced(now, limbo)
  {
    assert forall id | id in now :: id in was && AlikeAt(was[id], now[id]);
    assert forall id | id in was :: id in now && AlikeAt(was[id], now[id]);
  }

  /** Changing an entry but not its address or its position keeps the two indexes. */
  lemma Pinned(infos: Infos, id: int, info: AddrInfo, addrs: map<NetAddr, int>, random: seq<int>)
    requires id in infos && info.addr == infos[id].addr && info.nRandomPos == infos[id].nRandomPos
    ensures Indexed(infos, addrs) ==> Indexed(infos[id := info], addrs)
    ensures Shuffled(infos, random) ==> Shuffled(infos[id := info], random)
  {
  }

  // The steps of the operations

  lemma Created(infos: Infos, addrs: map<NetAddr, int>, random: seq<int>, id: int, info: AddrInfo)
    requires Indexed(infos, addrs) && Shuffled(infos, random)
    requires id !in infos && info.addr.ip !in addrs && info.nRandomPos == |random|
    ensures Indexed(infos[id := info], addrs[info.addr.ip := id]) && Shuffled(infos[id := info], random + [id])
  {
  }

  lemma CreatedTables(hs: Hashing, infos: Infos, tried: Table, news: Table, id: int, info: AddrInfo, limbo: set<int>)
    requires TriedOk(hs, infos, tried) && NewOk(hs, infos, news) && Referenced(infos, limbo)
    requires id !in infos && info.nRefCount == 0 && !info.fInTried
    ensures var now := infos[id := info];
      && TriedOk(hs, now, tried) && NewOk(hs, now, news)
      && TriedIds(now) == TriedIds(infos) && NewIds(now) == NewIds(infos) + {id}
      && Referenced(now, limbo + {id})
  {
    NoSlots(hs, infos, news, id);
  }

  lemma Swapped(infos: Infos, random: seq<int>, i: nat, j: nat)
    requires Shuffled(infos, random) && i < |random| && j < |random| && i != j
    ensures var a, b := random[i], random[j];
      a in infos && b in infos &&
      var now := infos[a := infos[a].(nRandomPos := j)][b := infos[b].(nRandomPos := i)];
      Shuffled(now, random[i := b][j := a]) && Alike(infos, now) && KeptBut(infos, now, {})
  {
    var a, b := random[i], random[j];
    assert infos[a].nRandomPos == i && infos[b].nRandomPos == j;
  }

  lemma Removed(infos: Infos, addrs: map<NetAddr, int>, random: seq<int>, id: int)
    requires Indexed(infos, addrs) && Shuffled(infos, random) && id in infos && infos[id].nRandomPos == |random| - 1
    ensures Indexed(infos - {id}, addrs - {infos[id].addr.ip}) && Shuffled(infos - {id}, random[..|random| - 1])
  {
  }

  lemma RemovedTables(hs: Hashing, infos: Infos, tried: Table, news: Table, id: int, limbo: set<int>)
    requires TriedOk(hs, infos, tried) && NewOk(hs, infos, news) && Referenced(infos, limbo)
    requires id in infos && infos[id].nRefCount == 0 && !infos[id].fInTried
    ensures var now := infos - {id};
      && TriedOk(hs, now, tried) && NewOk(hs, now, news)
      && TriedIds(now) == TriedIds(infos) && NewIds(now) == NewIds(infos) - {id}
      && Referenced(now, limbo - {id})
  {
    Unlisted(news, id);
  }

  lemma PositionOf(infos: Infos, random: seq<int>, id: int)
    requires Shuffled(infos, random) && id in infos
    ensures 0 <= infos[id].nRandomPos < |random| && random[infos[id].nRandomPos] == id
  {
  }

  lemma EntryAt(infos: Infos, random: seq<int>, i: nat)
    requires Shuffled(infos, random) && i < |random|
    ensures random[i] in infos && infos[random[i]].nRandomPos == i
  {
  }

  lemma AlikeEntry(was: Infos, now: Infos, id: int)
    requires Alike(was, now) && id in was
    ensures id in now && AlikeAt(was[id], now[id])
  {
  }

  /** Swapping an entry to the end of `vRandom` and dropping it from everywhere. */
  lemma Deleted(hs: Hashing, was: Infos, now: Infos, addrs: map<NetAddr, int>, random: seq<int>, tried: Table,
          news: Table, id: int, limbo: set<int>)
    requires Indexed(was, addrs) && TriedOk(hs, was, tried) && NewOk(hs, was, news) && Referenced(was, limbo)
    requires Alike(was, now) && KeptBut(was, now, {}) && Shuffled(now, random)
    requires id in was && was[id].nRefCount == 0 && !was[id].fInTried && id in now && now[id].nRandomPos == |random| - 1
    ensures var end := now - {id};
      && Indexed(end, addrs - {now[id].addr.ip}) && Shuffled(end, random[..|random| - 1])
      && TriedOk(hs, end, tried) && NewOk(hs, end, news) && Referenced(end, limbo - {id})
      && TriedIds(end) == TriedIds(was) && NewIds(end) == NewIds(was) - {id}
      && KeptBut(was, end, {id})
  {
    AlikeTables(hs, was, now, addrs, tried, news);
    AlikeCounts(was, now, limbo);
    assert AlikeAt(was[id], now[id]);
    assert KeptBut(was, now - {id}, {id});
    hide Indexed, Shuffled, TriedOk, NewOk, TriedIds, NewIds, Alike, KeptBut;
    Removed(now, addrs, random, id);
    RemovedTables(hs, now, tried, news, id, limbo);
  }

  lemma {:induction false} ShuffledSize(infos: Infos, random: seq<int>)
    requires Shuffled(infos, random)
    ensures |random| == |infos|
    decreases |random|
  {
    if |random| > 0 {
      var n := |random| - 1;
      var id := random[n];
      var rest := infos - {id};
      ShuffledSize(rest, random[..n]);
      assert infos.Keys == rest.Keys + {id};
    } else {
      assert forall id :: id !in infos;
      assert infos == map[];
    }
  }

  /** Every entry is in one of the two tables. */
  lemma Partition(infos: Infos)
    ensures |infos| == |TriedIds(infos)| + |NewIds(infos)|
  {
    assert infos.Keys == TriedIds(infos) + NewIds(infos);
  }

  /** Clearing a slot of the new table takes one reference from its entry. */
  lemma Cleared(hs: Hashing, infos: Infos, news: Table, s: Slot)
    requires NewOk(hs, infos, news) && s in news
    ensures var id := news[s];
      infos[id].nRefCount > 0 && NewOk(hs, infos[id := infos[id].(nRefCount := infos[id].nRefCount - 1)], news - {s})
  {
    hide NewSlot;
    var id := news[s];
    assert s in Slots(news, id);
    var now, left := infos[id := infos[id].(nRefCount := infos[id].nRefCount - 1)], news - {s};
    forall k | k in now ensures now[k].nRefCount == |Slots(left, k)| { ClearedCount(infos, news, s, k); }
    hide Slots;
  }

  lemma ClearedCount(infos: Infos, news: Table, s: Slot, k: int)
    requires s in news && k in infos && infos[k].nRefCount == |Slots(news, k)|
    ensures |Slots(news - {s}, k)| == infos[k].nRefCount - if k == news[s] then 1 else 0
  {
    hide Slots;
    SlotsRemoved(news, s, k);
  }

  /** Filling an empty slot of the new table adds one. */
  lemma Filled(hs: Hashing, infos: Infos, news: Table, s: Slot, id: int)
    requires NewOk(hs, infos, news) && s !in news && id in infos && !infos[id].fInTried
    requires s.0 < NEW_BUCKET_COUNT && s == NewSlot(hs, infos[id].addr, s.0)
    ensures NewOk(hs, infos[id := infos[id].(nRefCount := infos[id].nRefCount + 1)], news[s := id])
  {
    hide Slots, NewSlot;
    var now, more := infos[id := infos[id].(nRefCount := infos[id].nRefCount + 1)], news[s := id];
    forall k | k in now ensures now[k].nRefCount == |Slots(more, k)| { SlotsPut(news, s, id, k); }
  }

  /** Taking an entry out of the tried table leaves it in neither. */
  lemma Evicted(hs: Hashing, infos: Infos, tried: Table, news: Table, s: Slot, limbo: set<int>)
    requires TriedOk(hs, infos, tried) && NewOk(hs, infos, news) && Referenced(infos, limbo) && s in tried
    ensures var id := tried[s]; var now := infos[id := infos[id].(fInTried := false)];
      && TriedOk(hs, now, tried - {s}) && NewOk(hs, now, news) && now[id].nRefCount == 0
      && TriedIds(now) == TriedIds(infos) - {id} && NewIds(now) == NewIds(infos) + {id}
      && Referenced(now, limbo + {id})
  {
    NoSlots(hs, infos, news, tried[s]);
  }

  /** Putting an entry that is in neither table into the tried table. */
  lemma Promoted(hs: Hashing, infos: Infos, tried: Table, news: Table, id: int, limbo: set<int>)
    requires TriedOk(hs, infos, tried) && NewOk(hs, infos, news) && Referenced(infos, limbo) && id in infos
    requires !infos[id].fInTried && infos[id].nRefCount == 0 && TriedSlot(hs, infos[id].addr) !in tried
    ensures var now := infos[id := infos[id].(fInTried := true)];
      && TriedOk(hs, now, tried[TriedSlot(hs, infos[id].addr) := id]) && NewOk(hs, now, news)
      && TriedIds(now) == TriedIds(infos) + {id} && NewIds(now) == NewIds(infos) - {id}
      && Referenced(now, limbo - {id})
  {
    Unlisted(news, id);
  }

  /** Lowering a reference count that stays positive, or of an entry about to be dropped. */
  lemma Lowered(infos: Infos, id: int, limbo: set<int>, n: int)
    requires id in infos && 0 <= n < infos[id].nRefCount && Referenced(infos, limbo) && !infos[id].fInTried
    ensures var now := infos[id := infos[id].(nRefCount := n)];
      && Referenced(now, if n == 0 then limbo + {id} else limbo)
      && TriedIds(now) == TriedIds(infos) && NewIds(now) == NewIds(infos) && id in NewIds(now)
  {
  }

  lemma KeptTwice(a: Infos, b: Infos, c: Infos, x: set<int>, y: set<int>)
    requires KeptBut(a, b, x) && KeptBut(b, c, y)
    ensures KeptBut(a, c, x + y)
  {
  }

  lemma ReferencedMore(infos: Infos, limbo: set<int>, more: set<int>)
    requires Referenced(infos, limbo) && limbo <= more
    ensures Referenced(infos, more)
  {
  }

  lemma Recounted(hs: Hashing, infos: Infos, tried: Table, id: int, n: int)
    requires TriedOk(hs, infos, tried) && id in infos
    ensures TriedOk(hs, infos[id := infos[id].(nRefCount := n)], tried)
  {
  }

  lemma NewEntry(hs: Hashing, infos: Infos, news: Table, s: Slot)
    requires NewOk(hs, infos, news) && s in news
    ensures news[s] in infos && !infos[news[s]].fInTried && infos[news[s]].nRefCount > 0
  {
    assert s in Slots(news, news[s]);
  }

  lemma Unreferenced(hs: Hashing, infos: Infos, news: Table, id: int)
    requires NewOk(hs, infos, news) && id in infos && Slots(news, id) == {}
    ensures infos[id].nRefCount == 0
  {
  }

  lemma Counted(hs: Hashing, infos: Infos, news: Table, id: int)
    requires NewOk(hs, infos, news) && id in infos
    ensures infos[id].nRefCount == |Slots(news, id)| >= 0
  {
  }

  lemma IdIn(infos: Infos, id: int)
    requires id in infos
    ensures id in TriedIds(infos) <==> infos[id].fInTried
    ensures id in NewIds(infos) <==> !infos[id].fInTried
  {
  }

  lemma KeptAll(infos: Infos, ids: set<int>)
    ensures KeptBut(infos, infos, ids) && Inherits(infos, infos)
  {
  }

  lemma ReferencedAt(infos: Infos, id: int)
    requires Referenced(infos, {}) && id in infos && !infos[id].fInTried
    ensures 1 <= infos[id].nRefCount <= NEW_BUCKETS_PER_ADDRESS
  {
  }

  lemma NotAnId(infos: Infos, id: int)
    requires id !in infos
    ensures id !in NewIds(infos) && id !in TriedIds(infos)
  {
  }

  lemma InheritedAt(was: Infos, now: Infos, id: int)
    requires Inherits(was, now) && id in now
    ensures id in was && SameStatistics(was[id], now[id])
  {
  }

  lemma KeptNone(was: Infos, now: Infos, id: int)
    requires KeptBut(was, now, {id}) && id !in was && id !in now
    ensures KeptBut(was, now, {})
  {
  }

  lemma TimedUpdate(infos: Infos, id: int, info: AddrInfo)
    requires Timed(infos) && info.nLastTry >= 0 && info.nLastSuccess >= 0 && (info.fInTried ==> info.nLastSuccess != 0)
    ensures Timed(infos[id := info])
  {
  }

  lemma TimedStill(hs: Hashing, was: Infos, now: Infos, tried: Table)
    requires Timed(was) && Inherits(was, now) && TriedOk(hs, was, tried) && TriedOk(hs, now, tried)
    ensures Timed(now)
  {
    forall id | id in now ensures now[id].fInTried ==> was[id].fInTried {
      if now[id].fInTried { assert tried[TriedSlot(hs, now[id].addr)] == id; }
    }
  }

  lemma TimedAt(infos: Infos, id: int)
    requires Timed(infos) && id in infos
    ensures infos[id].nLastTry >= 0 && infos[id].nLastSuccess >= 0
    ensures infos[id].fInTried ==> infos[id].nLastSuccess != 0
  {
  }

  lemma UpdatedOne(infos: Infos, id: int, info: AddrInfo)
    ensures KeptBut(infos, infos[id := info], {id})
  {
  }

  /** The slots of an entry in the first buckets. */
  ghost function SlotsBelow(t: Table, id: int, bucket: nat): set<Slot> { set s | s in t && t[s] == id && s.0 < bucket }

  /** The table without the slots an entry had in the first buckets. */
  ghost predicate Unlinked(was: Table, now: Table, id: int, bucket: nat) { now == was - SlotsBelow(was, id, bucket) }

  lemma UnlinkedStart(was: Table, id: int)
    ensures Unlinked(was, was, id, 0)
  {
  }

  /** An entry has at most one slot in a bucket, the computed one. */
  lemma UnlinkedNext(hs: Hashing, infos: Infos, was: Table, now: Table, id: int, bucket: nat)
    requires NewOk(hs, infos, was) && id in infos && Unlinked(was, now, id, bucket)
    ensures var s := NewSlot(hs, infos[id].addr, bucket);
      Unlinked(was, if s in now && now[s] == id then now - {s} else now, id, bucket + 1)
  {
    var s := NewSlot(hs, infos[id].addr, bucket);
    if s in was && was[s] == id {
      assert SlotsBelow(was, id, bucket + 1) == SlotsBelow(was, id, bucket) + {s};
    } else {
      assert SlotsBelow(was, id, bucket + 1) == SlotsBelow(was, id, bucket);
    }
  }

  lemma UnlinkedAll(hs: Hashing, infos: Infos, was: Table, now: Table, id: int)
    requires NewOk(hs, infos, was) && Unlinked(was, now, id, NEW_BUCKET_COUNT)
    ensures now == was - Slots(was, id) && Slots(now, id) == {}
  {
    assert SlotsBelow(was, id, NEW_BUCKET_COUNT) == Slots(was, id);
  }

  /** What an entry moved between tables keeps, besides its position in `vRandom`. */
  ghost predicate MovedTo(was: AddrInfo, now: AddrInfo, nRefCount: int, fInTried: bool) {
    SameButPosition(was.(nRefCount := nRefCount, fInTried := fInTried), now)
  }

  /** The slot of the new table that the address and its source choose. */
  function HomeSlot(hs: Hashing, info: AddrInfo): Slot { NewSlot(hs, info.addr, GetNewBucket(hs, info.addr,
          info.source)) }

  lemma TriedEntry(hs: Hashing, infos: Infos, tried: Table, s: Slot)
    requires TriedOk(hs, infos, tried) && s in tried
    ensures tried[s] in infos && infos[tried[s]].fInTried && tried[s] in TriedIds(infos) && tried[s] !in NewIds(infos)
  {
  }

  /** The entries that moving one to the tried table changes: itself, the one evicted for it, and the one
      that has to make room for that in the new table. */
  ghost function Involved(hs: Hashing, infos: Infos, tried: Table, news: Table, id: int): set<int>
    requires id in infos
  {
    var s := TriedSlot(hs, infos[id].addr);
    {id} + if s !in tried then {} else
      {tried[s]} + if tried[s] !in infos then {} else Occupant(news - Slots(news, id), HomeSlot(hs, infos[tried[s]]))
  }

  ghost function Occupant(t: Table, s: Slot): set<int> { if s in t then {t[s]} else {} }

  lemma KeptEntry(was: Infos, now: Infos, ids: set<int>, id: int)
    requires KeptBut(was, now, ids) && id !in ids && id in was
    ensures id in now && SameButPosition(was[id], now[id])
  {
  }

  /** Raising the reference count of an entry that had none. */
  lemma Raised(infos: Infos, id: int, limbo: set<int>)
    requires id in infos && infos[id].nRefCount < NEW_BUCKETS_PER_ADDRESS && Referenced(infos, limbo)
    requires infos[id].nRefCount >= 0 && !infos[id].fInTried
    ensures var now := infos[id := infos[id].(nRefCount := infos[id].nRefCount + 1)];
      && Referenced(now, limbo - {id})
      && TriedIds(now) == TriedIds(infos) && NewIds(now) == NewIds(infos)
  {
  }

  /** A new bucket that holds an entry. */
  lemma SomeSlot(hs: Hashing, infos: Infos, news: Table, id: int) returns (bucket: nat)
    requires NewOk(hs, infos, news) && Referenced(infos, {}) && id in infos && !infos[id].fInTried
    ensures bucket < NEW_BUCKET_COUNT
    ensures var s := NewSlot(hs, infos[id].addr, bucket); s in news && news[s] == id
  {
    assert Slots(news, id) != {};
    var s :| s in Slots(news, id);
    bucket := s.0;
  }

  lemma TriedTwice(hs: Hashing, infos: Infos, tried: Table, news: Table, id: int)
    requires TriedOk(hs, infos, tried) && NewOk(hs, infos, news) && id in infos && infos[id].fInTried
    ensures tried == tried[TriedSlot(hs, infos[id].addr) := id] && infos[id].nRefCount == 0
  {
    NoSlots(hs, infos, news, id);
  }

  lemma RetimedSelf(infos: Infos, id: int, info: AddrInfo)
    requires id in infos && info.fInTried && info.nLastTry == info.nLastSuccess && Timed(infos)
    ensures Timed(infos[id := info]) <==> info.nLastSuccess > 0
  {
    assert infos[id := info][id] == info;
  }

  /** Times stay in order exactly when the new one is positive. */
  lemma Retimed(hs: Hashing, was: Infos, mid: Infos, now: Infos, tried: Table, triedNow: Table, id: int, nTime: int)
    requires Timed(was) && TriedOk(hs, was, tried) && TriedOk(hs, now, triedNow) && Inherits(mid, now)
    requires id in was && id in mid && mid == was[id := mid[id]] && mid[id].nLastSuccess == mid[id].nLastTry == nTime
    requires id in now && now[id].fInTried && triedNow == tried[TriedSlot(hs, was[id].addr) := id]
    ensures Timed(now) <==> nTime > 0
  {
    forall k | k in now && k != id
      ensures k in was && SameStatistics(was[k], now[k]) && (now[k].fInTried ==> was[k].fInTried)
    {
      if now[k].fInTried { assert triedNow[TriedSlot(hs, now[k].addr)] == k; }
    }
  }
}
