/** Saving the address manager and reading it back (CAddrMan::Serialize and Unserialize in src/addrman.h). */
module AddrFile {
  import opened AddrTables
  import opened AddrManager
  import opened Options

  /** What is written of an entry. */
  datatype Saved = Saved(addr: Service, nServices: nat, nTime: int, source: NetAddr, nLastSuccess: int, nAttempts: int)

  function SavedOf(info: AddrInfo): Saved {
    Saved(info.addr, info.nServices, info.nTime, info.source, info.nLastSuccess, info.nAttempts)
  }

  function Restored(s: Saved, fInTried: bool, nRandomPos: int): AddrInfo {
    AddrInfo(s.addr, s.nServices, s.nTime, s.source, s.nLastSuccess, s.nAttempts, 0, 0, 0, fInTried, nRandomPos)
  }

  /** The stream: a header, the entries of the new table, those of the tried table, and for each new bucket the
      places of its entries in the first list. */
  datatype File = File(
    nVersion: nat, nKeySize: nat, nKey: nat, nNew: int, nTried: int, nUBuckets: bv32,
    news: seq<Saved>, tried: seq<Saved>, buckets: seq<seq<int>>)

  /** The mark put on the number of buckets, and taken off by putting it on again. */
  function Marked(n: bv32): bv32 { n ^ 0x4000_0000 }

  /** The tables written, for the proofs. */
  datatype Source = Source(hs: Hashing, infos: Infos, addrs: map<NetAddr, int>, tried: Table, news: Table, count: nat)

  ghost predicate Sound(src: Source) {
    && (forall id | id in src.infos :: 0 <= id < src.count)
    && Indexed(src.infos, src.addrs) && TriedOk(src.hs, src.infos, src.tried) && NewOk(src.hs, src.infos, src.news)
    && Referenced(src.infos, {})
  }

  ghost function SourceOf(m: AddrMan): Source reads m {
    Source(m.Hs(), m.mapInfo, m.mapAddr, m.vvTried, m.vvNew, m.nIdCount)
  }

  // The order in which entries are written

  /** The members of a set below `k`, in increasing order. */
  ghost function InOrder(s: set<int>, k: nat): seq<int> {
    if k == 0 then [] else InOrder(s, k - 1) + if k - 1 in s then [k - 1] else []
  }

  lemma {:induction false} InOrderIs(s: set<int>, k: nat)
    ensures forall x :: x in InOrder(s, k) <==> 0 <= x < k && x in s
    ensures forall i, j | 0 <= i < j < |InOrder(s, k)| :: InOrder(s, k)[i] < InOrder(s, k)[j]
  {
    if k > 0 {
      InOrderIs(s, k - 1);
      var l := InOrder(s, k - 1);
      assert forall i | 0 <= i < |l| :: l[i] in l;
    }
  }

  /** The list below `j` is a prefix, so that its length is the place of `j`. */
  lemma {:induction false} InOrderPlace(s: set<int>, j: nat, k: nat)
    requires j <= k
    ensures InOrder(s, j) <= InOrder(s, k)
    ensures j < k && j in s ==> |InOrder(s, j)| < |InOrder(s, k)| && InOrder(s, k)[|InOrder(s, j)|] == j
  {
    if j < k { InOrderPlace(s, j, k - 1); }
  }

  lemma {:induction false} InOrderSize(s: set<int>, k: nat)
    requires forall x | x in s :: 0 <= x < k
    ensures |InOrder(s, k)| == |s|
  {
    if k == 0 {
      assert forall x :: x !in s;
      assert s == {};
    } else {
      InOrderSize(s - {k - 1}, k - 1);
      InOrderSame(s, s - {k - 1}, k - 1);
    }
  }

  lemma {:induction false} InOrderSame(s: set<int>, t: set<int>, k: nat)
    requires forall x | 0 <= x < k :: x in s <==> x in t
    ensures InOrder(s, k) == InOrder(t, k)
  {
    if k > 0 { InOrderSame(s, t, k - 1); }
  }

  ghost function NewList(src: Source): seq<int> { InOrder(NewIds(src.infos), src.count) }

  ghost function TriedList(src: Source): seq<int> { InOrder(TriedIds(src.infos), src.count) }

  /** Exactly the entries of the new table have references. */
  lemma NewIff(src: Source, id: int)
    requires Sound(src) && id in src.infos
    ensures src.infos[id].nRefCount != 0 <==> id in NewIds(src.infos)
  {
    if src.infos[id].fInTried { NoSlots(src.hs, src.infos, src.news, id); }
  }

  /** The filled positions of a bucket. */
  ghost function FilledAt(news: Table, bucket: nat): set<int> {
    set i: nat | i < BUCKET_SIZE && (bucket, i) in news :: i as int
  }

  ghost function Positions(news: Table, bucket: nat): seq<int> { InOrder(FilledAt(news, bucket), BUCKET_SIZE) }

  // What a file written from the tables holds

  /** `n` is the place at which an entry of the new table is written. */
  ghost predicate IsPlace(n: int, src: Source, id: int) {
    0 <= n < |NewList(src)| && NewList(src)[n] == id
  }

  ghost predicate BucketWrote(l: seq<int>, src: Source, bucket: nat, k: nat) {
    var p := InOrder(FilledAt(src.news, bucket), k);
    |l| == |p| && forall n | 0 <= n < |l| ::
      p[n] >= 0 && (bucket, p[n]) in src.news && IsPlace(l[n], src, src.news[(bucket, p[n])])
  }

  ghost predicate ListWrote(l: seq<Saved>, infos: Infos, ids: seq<int>) {
    |l| == |ids| && forall i | 0 <= i < |l| :: ids[i] in infos && l[i] == SavedOf(infos[ids[i]])
  }

  ghost predicate Wrote(f: File, src: Source) {
    && f.nVersion == 1 && f.nKeySize == 32 && f.nUBuckets == Marked(1024)
    && f.nNew == |NewList(src)| && f.nTried == |TriedList(src)|
    && ListWrote(f.news, src.infos, NewList(src)) && ListWrote(f.tried, src.infos, TriedList(src))
    && |f.buckets| == NEW_BUCKET_COUNT
    && forall b | 0 <= b < NEW_BUCKET_COUNT :: BucketWrote(f.buckets[b], src, b, BUCKET_SIZE)
  }

  /** Writes the tables; the assertions that the counters are right hold. */
  method Serialize(m: AddrMan) returns (f: File)
    requires m.Valid()
    ensures Wrote(f, SourceOf(m)) && f.nKey == m.nKey
  {
    ghost var src := SourceOf(m);
    var news, mapUnkIds := WriteNew(m);
    var tried := WriteTried(m);
    var buckets: seq<seq<int>> := [];
    for bucket := 0 to NEW_BUCKET_COUNT
      invariant |buckets| == bucket && forall b | 0 <= b < bucket :: BucketWrote(buckets[b], src, b, BUCKET_SIZE)
    {
      hide *;
      var l := WriteBucket(m, bucket, mapUnkIds);
      buckets := buckets + [l];
    }
    f := File(1, 32, m.nKey, m.nNew, m.nTried, Marked(1024), news, tried, buckets);
  }

  method WriteNew(m: AddrMan) returns (news: seq<Saved>, mapUnkIds: map<int, int>)
    requires m.Valid()
    ensures var src := SourceOf(m);
      ListWrote(news, src.infos, NewList(src)) && |news| == m.nNew
    ensures forall id | id in NewIds(m.mapInfo) :: id in mapUnkIds && IsPlace(mapUnkIds[id], SourceOf(m), id)
  {
    ghost var src := SourceOf(m);
    ghost var ids := NewIds(src.infos);
    InOrderSize(ids, src.count);
    hide Indexed, Shuffled, TriedOk, NewOk, Referenced, NewIds, TriedIds, IsPlace, InOrder;
    news, mapUnkIds := [], map[];
    NothingListed(src);
    for id := 0 to m.nIdCount
      invariant ListWrote(news, src.infos, InOrder(ids, id)) && Places(mapUnkIds, src, id)
    {
      hide ListWrote;
      if id in m.mapInfo {
        mapUnkIds := mapUnkIds[id := |news|];
        NewIff(src, id);
        PlaceNext(src, id, news);
        if m.mapInfo[id].nRefCount != 0 {
          assert |news| != m.nNew;
          news := news + [SavedOf(m.mapInfo[id])];
        }
      } else {
        NotAnId(src.infos, id);
        InOrderNext(ids, id);
      }
    }
  }

  /** Every entry of the new table below `k` has its place. */
  ghost predicate Places(mapUnkIds: map<int, int>, src: Source, k: nat) {
    forall id | id in NewIds(src.infos) && id < k :: id in mapUnkIds && IsPlace(mapUnkIds[id], src, id)
  }

  lemma NothingListed(src: Source)
    requires Sound(src)
    ensures ListWrote([], src.infos, InOrder(NewIds(src.infos), 0)) && Places(map[], src, 0)
  {
  }

  lemma PlaceNext(src: Source, id: nat, news: seq<Saved>)
    requires id < src.count && id in src.infos && ListWrote(news, src.infos, InOrder(NewIds(src.infos), id))
    ensures id in NewIds(src.infos) ==>
      && IsPlace(|news|, src, id)
      && ListWrote(news + [SavedOf(src.infos[id])], src.infos, InOrder(NewIds(src.infos), id + 1))
    ensures id !in NewIds(src.infos) ==> ListWrote(news, src.infos, InOrder(NewIds(src.infos), id + 1))
  {
    InOrderPlace(NewIds(src.infos), id, src.count);
    InOrderNext(NewIds(src.infos), id);
    hide InOrder, NewIds;
  }

  lemma InOrderNone(s: set<int>)
    ensures InOrder(s, 0) == []
  {
  }

  lemma InOrderNext(s: set<int>, k: nat)
    ensures InOrder(s, k + 1) == if k in s then InOrder(s, k) + [k] else InOrder(s, k)
  {
  }

  method WriteTried(m: AddrMan) returns (tried: seq<Saved>)
    requires m.Valid()
    ensures ListWrote(tried, m.mapInfo, TriedList(SourceOf(m))) && |tried| == m.nTried
  {
    ghost var src := SourceOf(m);
    ghost var ids := TriedIds(src.infos);
    InOrderSize(ids, src.count);
    hide Indexed, Shuffled, TriedOk, NewOk, Referenced, NewIds, InOrder;
    tried := [];
    InOrderNone(ids);
    for id := 0 to m.nIdCount
      invariant ListWrote(tried, src.infos, InOrder(ids, id))
    {
      InOrderNext(ids, id);
      if id in m.mapInfo && m.mapInfo[id].fInTried {
        InOrderPlace(ids, id, src.count);
        assert |tried| != m.nTried;
        tried := tried + [SavedOf(m.mapInfo[id])];
      }
    }
  }

  method WriteBucket(m: AddrMan, bucket: nat, mapUnkIds: map<int, int>) returns (l: seq<int>)
    requires m.Valid() && bucket < NEW_BUCKET_COUNT
    requires forall id | id in NewIds(m.mapInfo) :: id in mapUnkIds && IsPlace(mapUnkIds[id], SourceOf(m), id)
    ensures BucketWrote(l, SourceOf(m), bucket, BUCKET_SIZE)
  {
    ghost var src := SourceOf(m);
    l := [];
    for i := 0 to BUCKET_SIZE
      invariant BucketWrote(l, src, bucket, i)
    {
      if (bucket, i) in m.vvNew {
        NewEntry(src.hs, m.mapInfo, m.vvNew, (bucket, i));
        IdIn(m.mapInfo, m.vvNew[(bucket, i)]);
        l := l + [mapUnkIds[m.vvNew[(bucket, i)]]];
      }
    }
  }

  // Reading back

  /** The entries in the order they are written: reading gives the first the identifier 0, and so on. */
  ghost function Ids(src: Source): seq<int> { NewList(src) + TriedList(src) }

  lemma Renumbered(src: Source)
    requires Sound(src)
    ensures forall j | 0 <= j < |Ids(src)| ::
      Ids(src)[j] in src.infos && (src.infos[Ids(src)[j]].fInTried <==> j >= |NewList(src)|)
    ensures forall i, j | 0 <= i < j < |Ids(src)| :: Ids(src)[i] != Ids(src)[j]
  {
    InOrderIs(NewIds(src.infos), src.count);
    InOrderIs(TriedIds(src.infos), src.count);
    hide Indexed, TriedOk, NewOk, Referenced;
    var n, t := NewList(src), TriedList(src);
    assert forall j | 0 <= j < |n| :: n[j] in n;
    assert forall j | 0 <= j < |t| :: t[j] in t;
  }

  lemma PlaceOf(src: Source, id: int) returns (j: nat)
    requires Sound(src) && id in src.infos
    ensures j < |Ids(src)| && Ids(src)[j] == id
  {
    InOrderIs(NewIds(src.infos), src.count);
    InOrderIs(TriedIds(src.infos), src.count);
    hide Indexed, TriedOk, NewOk, Referenced;
    if src.infos[id].fInTried {
      assert id in TriedList(src);
      var k :| 0 <= k < |TriedList(src)| && TriedList(src)[k] == id;
      j := |NewList(src)| + k;
    } else {
      assert id in NewList(src);
      j :| 0 <= j < |NewList(src)| && NewList(src)[j] == id;
    }
  }

  /** The first `k` entries have been read. */
  ghost predicate Restoring(src: Source, infos: Infos, k: nat) {
    && k <= |Ids(src)| && (forall j :: j in infos <==> 0 <= j < k)
    && forall j | 0 <= j < k :: IsRestored(src, infos[j], j)
  }

  ghost predicate IsRestored(src: Source, info: AddrInfo, j: nat)
    requires j < |Ids(src)|
  {
    && Ids(src)[j] in src.infos && SavedOf(info) == SavedOf(src.infos[Ids(src)[j]])
    && (info.fInTried <==> j >= |NewList(src)|) && info.nLastTry == 0
  }

  /** The slot of the next tried entry is free. */
  lemma NextIsFree(src: Source, infos: Infos, tried: Table, k: nat)
    requires Sound(src) && Restoring(src, infos, k) && |NewList(src)| <= k < |Ids(src)| && TriedOk(src.hs, infos, tried)
    ensures Ids(src)[k] in src.infos && TriedSlot(src.hs, src.infos[Ids(src)[k]].addr) !in tried
  {
    Renumbered(src);
    hide Indexed, NewOk, Referenced, Ids, TriedSlot;
    var s := TriedSlot(src.hs, src.infos[Ids(src)[k]].addr);
    forall j | 0 <= j < k && infos[j].fInTried ensures TriedSlot(src.hs, infos[j].addr) != s {
      assert IsRestored(src, infos[j], j);
      assert src.tried[TriedSlot(src.hs, infos[j].addr)] == Ids(src)[j] != Ids(src)[k] == src.tried[s];
    }
  }

  method Clear(m: AddrMan, nKey: nat)
    modifies m
    ensures m.Valid() && m.nKey == nKey && m.nIdCount == 0
    ensures m.mapInfo == map[] && m.mapAddr == map[] && m.vRandom == [] && m.vvNew == map[]
  {
    m.nKey := nKey;
    m.nIdCount, m.nTried, m.nNew, m.nLastGood := 0, 0, 0, 1;
    m.mapInfo, m.mapAddr, m.vRandom, m.vvTried, m.vvNew := map[], map[], [], map[], map[];
  }

  // Reading

  ghost predicate DistinctIps(all: seq<Saved>) {
    forall i, j | 0 <= i < j < |all| :: all[i].addr.ip != all[j].addr.ip
  }

  ghost predicate Seen(all: seq<Saved>, k: nat, ip: NetAddr) {
    exists i | 0 <= i < k && i < |all| :: all[i].addr.ip == ip
  }

  /** The first `k` entries of the file have been dealt with; `count` of them were kept and numbered in order, those
      of the new table, `news` in all, first. */
  ghost predicate Loading(m: AddrMan, all: seq<Saved>, k: nat, news: nat, count: nat)
    reads m
  {
    && m.Linked() && |m.vRandom| == count && k <= |all|
    && (forall ip | ip in m.mapAddr :: Seen(all, k, ip))
    && (forall id :: id in m.mapInfo <==> 0 <= id < count)
    && (forall id | id in m.mapInfo ::
          (m.mapInfo[id].fInTried <==> id >= news) && m.mapInfo[id].nRefCount <= NEW_BUCKETS_PER_ADDRESS)
  }

  lemma NextUnseen(all: seq<Saved>, k: nat, addrs: map<NetAddr, int>)
    requires DistinctIps(all) && k < |all| && forall ip | ip in addrs :: Seen(all, k, ip)
    ensures all[k].addr.ip !in addrs
    ensures forall ip | ip in addrs :: Seen(all, k + 1, ip)
    ensures Seen(all, k + 1, all[k].addr.ip)
  {
    forall ip | ip in addrs ensures Seen(all, k + 1, ip) && ip != all[k].addr.ip {
      assert Seen(all, k, ip);
      var i :| 0 <= i < k && all[i].addr.ip == ip;
    }
  }

  /** The file was written from these tables, if any are given, and they chose buckets by the same hashes. */
  ghost predicate WrittenFrom(f: File, src: Option<Source>, hs: Hashing) {
    src.Some? ==> Sound(src.value) && Wrote(f, src.value) && hs == src.value.hs
  }

  /** What is read back of tables that were written. */
  ghost predicate Follows(m: AddrMan, src: Option<Source>, k: nat)
    reads m
  {
    src.Some? ==> m.Hs() == src.value.hs && Restoring(src.value, m.mapInfo, k) && m.vvNew == map[]
  }

  /** Reads one entry of the new table. If the buckets in the file are of no use, it is put into the bucket its source
      chooses, if there is room. */
  method ReadNew(m: AddrMan, n: nat, saved: Saved, usable: bool, ghost all: seq<Saved>, ghost news: nat,
          ghost src: Option<Source>)
    requires Loading(m, all, n, news, n) && n < news <= |all| && saved == all[n] && DistinctIps(all)
    requires Follows(m, src, n) && (src.Some? ==> usable && n < |NewList(src.value)|)
    requires src.Some? ==> Ids(src.value)[n] in src.value.infos && saved == SavedOf(src.value.infos[Ids(src.value)[n]])
    modifies m`mapInfo, m`mapAddr, m`vRandom, m`vvNew
    ensures Loading(m, all, n + 1, news, n + 1) && Follows(m, src, n + 1) && m.Hs() == old(m.Hs())
  {
    hide Indexed, Shuffled, TriedOk, NewOk, Restoring, Sound, Seen, DistinctIps, Ids, NewList, Loading;
    LoadingFacts(m, all, n, news, n);
    var info := Restored(saved, false, |m.vRandom|);
    if src.Some? {
      IdsSize(src.value);
      NewRestored(src.value, saved, n, |m.vRandom|);
      RestoringNext(src.value, m.mapInfo, n, info);
    }
    EnterNew(m, n, info, all, news);
    if !usable { PlaceAtHome(m, n, all, n + 1, news, n + 1); }
  }

  lemma NewRestored(src: Source, saved: Saved, n: nat, pos: int)
    requires n < |NewList(src)| <= |Ids(src)| && Ids(src)[n] in src.infos && saved == SavedOf(src.infos[Ids(src)[n]])
    ensures n < |Ids(src)| && IsRestored(src, Restored(saved, false, pos), n)
  {
  }

  lemma LoadingFacts(m: AddrMan, all: seq<Saved>, k: nat, news: nat, count: nat)
    requires Loading(m, all, k, news, count)
    ensures m.Linked() && |m.vRandom| == count && k <= |all| && (forall ip | ip in m.mapAddr :: Seen(all, k, ip))
    ensures count !in m.mapInfo
  {
  }

  /** Enters an entry of the new table into the indexes. */
  method EnterNew(m: AddrMan, n: nat, info: AddrInfo, ghost all: seq<Saved>, ghost news: nat)
    requires Loading(m, all, n, news, n) && n < news <= |all| && info.addr == all[n].addr && DistinctIps(all)
    requires !info.fInTried && info.nRefCount == 0 && info.nRandomPos == |m.vRandom|
    modifies m`mapInfo, m`mapAddr, m`vRandom
    ensures Loading(m, all, n + 1, news, n + 1) && m.mapInfo == old(m.mapInfo)[n := info]
  {
    hide Indexed, Shuffled, TriedOk, NewOk, Seen, DistinctIps;
    NextUnseen(all, n, m.mapAddr);
    Created(m.mapInfo, m.mapAddr, m.vRandom, n, info);
    Entering(m.Hs(), m.mapInfo, m.vvTried, m.vvNew, n, info);
    m.mapInfo := m.mapInfo[n := info];
    m.mapAddr := m.mapAddr[info.addr.ip := n];
    m.vRandom := m.vRandom + [n];
  }

  /** Puts an entry into the bucket its source chooses, if there is room. */
  method PlaceAtHome(m: AddrMan, n: nat, ghost all: seq<Saved>, ghost k: nat, ghost news: nat, ghost count: nat)
    requires Loading(m, all, k, news, count) && n in m.mapInfo && !m.mapInfo[n].fInTried && m.mapInfo[n].nRefCount == 0
    modifies m`mapInfo, m`vvNew
    ensures Loading(m, all, k, news, count)
  {
    hide Indexed, Shuffled, TriedOk, NewOk, Seen;
    var info := m.mapInfo[n];
    var slot := HomeSlot(m.hashes(m.nKey), info);
    if slot !in m.vvNew {
      Filled(m.Hs(), m.mapInfo, m.vvNew, slot, n);
      info := info.(nRefCount := info.nRefCount + 1);
      Pinned(m.mapInfo, n, info, m.mapAddr, m.vRandom);
      Recounted(m.Hs(), m.mapInfo, m.vvTried, n, info.nRefCount);
      m.mapInfo := m.mapInfo[n := info];
      m.vvNew := m.vvNew[slot := n];
    }
  }

  lemma RestoringNext(src: Source, infos: Infos, n: nat, info: AddrInfo)
    requires Restoring(src, infos, n) && n < |Ids(src)| && IsRestored(src, info, n)
    ensures n !in infos && Restoring(src, infos[n := info], n + 1)
  {
    hide IsRestored;
  }

  lemma Entering(hs: Hashing, infos: Infos, tried: Table, news: Table, id: int, info: AddrInfo)
    requires TriedOk(hs, infos, tried) && NewOk(hs, infos, news) && id !in infos && info.nRefCount == 0
    ensures !info.fInTried ==> TriedOk(hs, infos[id := info], tried)
    ensures info.fInTried && TriedSlot(hs, info.addr) !in tried ==>
      TriedOk(hs, infos[id := info], tried[TriedSlot(hs, info.addr) := id])
    ensures NewOk(hs, infos[id := info], news)
  {
    NoSlots(hs, infos, news, id);
  }

  /** Reads one entry of the tried table, unless its slot there is taken. */
  method ReadTried(m: AddrMan, saved: Saved) returns (lost: bool)
    requires m.Linked() && saved.addr.ip !in m.mapAddr && m.nIdCount !in m.mapInfo
    modifies m`mapInfo, m`mapAddr, m`vRandom, m`vvTried, m`nIdCount
    ensures m.Linked() && (lost <==> TriedSlot(m.Hs(), saved.addr) in old(m.vvTried))
    ensures lost ==> m.mapInfo == old(m.mapInfo) && m.mapAddr == old(m.mapAddr)
    ensures lost ==> m.nIdCount == old(m.nIdCount) && m.vRandom == old(m.vRandom)
    ensures !lost ==> m.mapAddr == old(m.mapAddr)[saved.addr.ip := old(m.nIdCount)]
    ensures !lost ==>
      && m.mapInfo == old(m.mapInfo)[old(m.nIdCount) := Restored(saved, true, |old(m.vRandom)|)]
      && m.nIdCount == old(m.nIdCount) + 1 && |m.vRandom| == |old(m.vRandom)| + 1
  {
    hide Indexed, Shuffled, TriedOk, NewOk, TriedSlot;
    var slot := TriedSlot(m.hashes(m.nKey), saved.addr);
    lost := slot in m.vvTried;
    if !lost {
      var info := Restored(saved, true, |m.vRandom|);
      var n := m.nIdCount;
      Created(m.mapInfo, m.mapAddr, m.vRandom, n, info);
      Entering(m.Hs(), m.mapInfo, m.vvTried, m.vvNew, n, info);
      m.vRandom := m.vRandom + [n];
      m.mapInfo := m.mapInfo[n := info];
      m.mapAddr := m.mapAddr[info.addr.ip := n];
      m.vvTried := m.vvTried[slot := n];
      m.nIdCount := n + 1;
    }
  }

  function OneMore(infos: Infos, id: int): Infos
    requires id in infos
  {
    infos[id := infos[id].(nRefCount := infos[id].nRefCount + 1)]
  }

  /** Puts an entry of the new table into a bucket, if the buckets are of use, there is room and it is not in too
      many. */
  method ReadPlace(m: AddrMan, bucket: nat, nIndex: int, usable: bool)
    requires m.Linked() && (usable ==> bucket < NEW_BUCKET_COUNT)
    requires forall n | 0 <= n < m.nNew :: n in m.mapInfo && !m.mapInfo[n].fInTried
    modifies m`mapInfo, m`vvNew
    ensures m.Linked()
    ensures
      if usable && 0 <= nIndex < m.nNew && NewSlot(m.Hs(), old(m.mapInfo)[nIndex].addr, bucket) !in old(m.vvNew)
        && old(m.mapInfo)[nIndex].nRefCount < NEW_BUCKETS_PER_ADDRESS
      then
        && m.vvNew == old(m.vvNew)[NewSlot(m.Hs(), old(m.mapInfo)[nIndex].addr, bucket) := nIndex]
        && m.mapInfo == OneMore(old(m.mapInfo), nIndex)
      else m.vvNew == old(m.vvNew) && m.mapInfo == old(m.mapInfo)
  {
    hide Indexed, Shuffled, TriedOk, NewOk;
    if 0 <= nIndex < m.nNew {
      var info := m.mapInfo[nIndex];
      var slot := NewSlot(m.hashes(m.nKey), info.addr, bucket);
      if usable && slot !in m.vvNew && info.nRefCount < NEW_BUCKETS_PER_ADDRESS {
        Filled(m.Hs(), m.mapInfo, m.vvNew, slot, nIndex);
        info := info.(nRefCount := info.nRefCount + 1);
        Pinned(m.mapInfo, nIndex, info, m.mapAddr, m.vRandom);
        Recounted(m.Hs(), m.mapInfo, m.vvTried, nIndex, info.nRefCount);
        m.mapInfo := m.mapInfo[nIndex := info];
        m.vvNew := m.vvNew[slot := nIndex];
      }
    }
  }

  // The new buckets

  /** The slots of the new table before a position in a bucket. */
  ghost function Done(src: Source, bucket: nat, limit: int): set<Slot> {
    set s | s in src.news && (s.0 < bucket || (s.0 == bucket && s.1 < limit))
  }

  /** These slots, and no others, hold what they held, under its new identifier. */
  ghost predicate Copying(src: Source, news: Table, done: set<Slot>) {
    && (forall s :: s in news <==> s in done)
    && forall s | s in news :: s in src.news && IsPlace(news[s], src, src.news[s])
  }

  ghost function Limit(p: seq<int>, n: nat): int { if n < |p| then p[n] else BUCKET_SIZE }

  lemma PositionIn(src: Source, s: Slot) returns (i: nat)
    requires s in src.news && s.1 < BUCKET_SIZE
    ensures i < |Positions(src.news, s.0)| && Positions(src.news, s.0)[i] == s.1
  {
    var p := Positions(src.news, s.0);
    InOrderIs(FilledAt(src.news, s.0), BUCKET_SIZE);
    hide InOrder;
    assert (s.0, s.1) in src.news && s.1 in FilledAt(src.news, s.0);
    i :| 0 <= i < |p| && p[i] == s.1;
  }

  lemma DoneStart(src: Source, bucket: nat)
    ensures Done(src, bucket, Limit(Positions(src.news, bucket), 0)) == Done(src, bucket, 0)
  {
    var p := Positions(src.news, bucket);
    InOrderIs(FilledAt(src.news, bucket), BUCKET_SIZE);
    hide InOrder;
    if |p| > 0 { assert p[0] in p; }
    forall s: Slot | s in src.news && s.0 == bucket ensures Limit(p, 0) <= s.1 {
      if s.1 < BUCKET_SIZE { var i := PositionIn(src, s); }
    }
    assert forall s | s in Done(src, bucket, Limit(p, 0)) :: s in Done(src, bucket, 0);
  }

  lemma DoneNext(src: Source, bucket: nat, n: nat)
    requires n < |Positions(src.news, bucket)|
    ensures var p := Positions(src.news, bucket);
      && p[n] >= 0 && (bucket, p[n]) in src.news && (bucket, p[n]) !in Done(src, bucket, Limit(p, n))
      && Done(src, bucket, Limit(p, n + 1)) == Done(src, bucket, Limit(p, n)) + {(bucket, p[n])}
  {
    var p := Positions(src.news, bucket);
    InOrderIs(FilledAt(src.news, bucket), BUCKET_SIZE);
    hide InOrder;
    assert p[n] in p;
    if n + 1 < |p| { assert p[n + 1] in p; }
    forall s: Slot | s in src.news && s.0 == bucket && s.1 > p[n] ensures Limit(p, n + 1) <= s.1 {
      if s.1 < BUCKET_SIZE { var i := PositionIn(src, s); }
    }
    var a, b := Done(src, bucket, Limit(p, n + 1)), Done(src, bucket, Limit(p, n)) + {(bucket, p[n])};
    assert forall s | s in a :: s in b;
    assert forall s | s in b :: s in a;
  }

  lemma DoneEnd(src: Source, bucket: nat)
    requires Sound(src)
    ensures var p := Positions(src.news, bucket); Done(src, bucket, Limit(p, |p|)) == Done(src, bucket + 1, 0)
  {
    assert forall s: Slot | s in src.news ::
      s == NewSlot(src.hs, src.infos[src.news[s]].addr, s.0) && s.1 < BUCKET_SIZE;
  }

  /** Every entry has been read, and some slots of the new table filled. */
  ghost predicate Refilling(m: AddrMan, src: Source, done: set<Slot>)
    reads m
  {
    && m.Linked() && m.Hs() == src.hs && Restoring(src, m.mapInfo, |Ids(src)|) && m.nNew == |NewList(src)|
    && Copying(src, m.vvNew, done)
  }

  /** So far an entry is in fewer buckets than it was, when a slot of it is still to come. */
  lemma Room(src: Source, infos: Infos, news: Table, done: set<Slot>, s: Slot, j: int)
    requires Sound(src) && NewOk(src.hs, infos, news) && Copying(src, news, done) && s in src.news && s !in done
    requires IsPlace(j, src, src.news[s]) && j in infos
    ensures infos[j].nRefCount < NEW_BUCKETS_PER_ADDRESS && s !in news
  {
    var id := src.news[s];
    var a, b := Slots(news, j), Slots(src.news, id);
    assert forall t | t in a :: t in b - {s};
    SubsetSize(a, b - {s});
    assert s in b;
  }

  lemma CopyingMore(src: Source, news: Table, done: set<Slot>, s: Slot, j: int)
    requires Copying(src, news, done) && s in src.news && IsPlace(j, src, src.news[s])
    ensures Copying(src, news[s := j], done + {s})
  {
  }

  /** The slot computed for an entry read back is the slot it had. */
  lemma SameSlot(src: Source, infos: Infos, s: Slot, j: int)
    requires Sound(src) && Restoring(src, infos, |Ids(src)|) && s in src.news && IsPlace(j, src, src.news[s])
    ensures j in infos && !infos[j].fInTried && NewSlot(src.hs, infos[j].addr, s.0) == s && s.0 < NEW_BUCKET_COUNT
  {
    assert Ids(src)[j] == NewList(src)[j];
    assert IsRestored(src, infos[j], j);
  }

  lemma Recount(src: Source, infos: Infos, k: nat, j: int, n: int)
    requires Restoring(src, infos, k) && j in infos
    ensures Restoring(src, infos[j := infos[j].(nRefCount := n)], k)
  {
    var now := infos[j := infos[j].(nRefCount := n)];
    forall i | 0 <= i < k ensures IsRestored(src, now[i], i) { assert IsRestored(src, infos[i], i); }
  }

  /** Every entry of the file has been dealt with. */
  ghost predicate Loaded(m: AddrMan, all: seq<Saved>, count: nat)
    reads m
  {
    m.nNew >= 0 && Loading(m, all, |all|, m.nNew, count) && m.nNew <= count
  }

  /** And if it was written from tables, some slots of their new table were filled. */
  ghost predicate Fills(m: AddrMan, src: Option<Source>, done: set<Slot>)
    reads m
  {
    src.Some? ==> Refilling(m, src.value, done)
  }

  lemma LoadedNews(m: AddrMan, all: seq<Saved>, count: nat)
    requires Loaded(m, all, count)
    ensures m.Linked() && forall n | 0 <= n < m.nNew :: n in m.mapInfo && !m.mapInfo[n].fInTried
  {
  }

  method ReadSlot(m: AddrMan, bucket: nat, nIndex: int, usable: bool, ghost all: seq<Saved>, ghost count: nat,
          ghost src: Option<Source>, ghost done: set<Slot>, ghost s: Slot)
    requires Loaded(m, all, count) && (usable ==> bucket < NEW_BUCKET_COUNT) && Fills(m, src, done)
    requires src.Some? ==>
      && usable && Sound(src.value) && s in src.value.news && s !in done && s.0 == bucket
      && IsPlace(nIndex, src.value, src.value.news[s])
    modifies m`mapInfo, m`vvNew
    ensures Loaded(m, all, count) && Fills(m, src, done + {s})
  {
    hide Indexed, Shuffled, TriedOk, NewOk, Restoring, Sound, NewSlot, Copying, Ids, InOrder, Seen;
    LoadedNews(m, all, count);
    if src.Some? { SlotRoom(m, nIndex, src.value, done, s); }
    ReadPlace(m, bucket, nIndex, usable);
  }

  lemma SlotRoom(m: AddrMan, nIndex: int, src: Source, done: set<Slot>, s: Slot)
    requires Sound(src) && Refilling(m, src, done) && s in src.news && s !in done && IsPlace(nIndex, src, src.news[s])
    ensures nIndex in m.mapInfo && NewSlot(src.hs, m.mapInfo[nIndex].addr, s.0) == s && s !in m.vvNew
    ensures m.mapInfo[nIndex].nRefCount < NEW_BUCKETS_PER_ADDRESS && 0 <= nIndex < m.nNew
    ensures Copying(src, m.vvNew[s := nIndex], done + {s})
    ensures Restoring(src, OneMore(m.mapInfo, nIndex), |Ids(src)|)
  {
    hide Indexed, Shuffled, TriedOk, NewOk, Restoring, Sound, NewSlot, Copying, Ids, InOrder;
    SameSlot(src, m.mapInfo, s, nIndex);
    Room(src, m.mapInfo, m.vvNew, done, s, nIndex);
    CopyingMore(src, m.vvNew, done, s, nIndex);
    Recount(src, m.mapInfo, |Ids(src)|, nIndex, m.mapInfo[nIndex].nRefCount + 1);
  }

  /** The slots of the tables written that come before an entry of a bucket. */
  ghost function DoneAt(src: Option<Source>, bucket: nat, n: nat): set<Slot> {
    if src.None? then {} else Done(src.value, bucket, Limit(Positions(src.value.news, bucket), n))
  }

  ghost function DoneBefore(src: Option<Source>, bucket: nat): set<Slot> {
    if src.None? then {} else Done(src.value, bucket, 0)
  }

  ghost function SlotAt(src: Option<Source>, bucket: nat, n: nat): Slot {
    if src.Some? && n < |Positions(src.value.news, bucket)| && Positions(src.value.news, bucket)[n] >= 0
    then (bucket, Positions(src.value.news, bucket)[n] as nat) else (bucket, 0)
  }

  lemma AtSlot(src: Option<Source>, bucket: nat, l: seq<int>, n: nat)
    requires n < |l| && (src.Some? ==> Sound(src.value) && BucketWrote(l, src.value, bucket, BUCKET_SIZE))
    ensures var s := SlotAt(src, bucket, n);
      src.Some? ==>
        && s in src.value.news && s !in DoneAt(src, bucket, n) && s.0 == bucket
        && IsPlace(l[n], src.value, src.value.news[s])
        && DoneAt(src, bucket, n + 1) == DoneAt(src, bucket, n) + {s}
  {
    if src.Some? {
      DoneNext(src.value, bucket, n);
      hide Done, Sound, InOrder, IsPlace;
    }
  }

  lemma AroundBucket(src: Option<Source>, bucket: nat, l: seq<int>)
    requires src.Some? ==> Sound(src.value) && BucketWrote(l, src.value, bucket, BUCKET_SIZE)
    ensures DoneAt(src, bucket, 0) == DoneBefore(src, bucket)
    ensures src.Some? ==> DoneAt(src, bucket, |l|) == DoneBefore(src, bucket + 1)
  {
    if src.Some? {
      DoneStart(src.value, bucket);
      DoneEnd(src.value, bucket);
      hide Done, Sound, InOrder;
    }
  }

  method ReadBucket(m: AddrMan, bucket: nat, l: seq<int>, usable: bool, ghost all: seq<Saved>, ghost count: nat,
          ghost src: Option<Source>)
    requires Loaded(m, all, count) && (usable ==> bucket < NEW_BUCKET_COUNT) && Fills(m, src, DoneBefore(src, bucket))
    requires src.Some? ==> usable && Sound(src.value) && BucketWrote(l, src.value, bucket, BUCKET_SIZE)
    modifies m`mapInfo, m`vvNew
    ensures Loaded(m, all, count) && Fills(m, src, DoneBefore(src, bucket + 1))
  {
    hide *;
    AroundBucket(src, bucket, l);
    for n := 0 to |l|
      invariant Loaded(m, all, count) && Fills(m, src, DoneAt(src, bucket, n))
    {
      AtSlot(src, bucket, l, n);
      ReadSlot(m, bucket, l[n], usable, all, count, src, DoneAt(src, bucket, n), SlotAt(src, bucket, n));
      if src.None? { FillsNothing(m, src, DoneAt(src, bucket, n + 1)); }
    }
    if src.None? { FillsNothing(m, src, DoneBefore(src, bucket + 1)); }
  }

  lemma FillsNothing(m: AddrMan, src: Option<Source>, done: set<Slot>)
    requires src.None?
    ensures Fills(m, src, done)
  {
  }

  // The whole file

  /** What a user sees of an address: what is known of it, and in which table and buckets it is. */
  datatype Entry = Entry(saved: Saved, fInTried: bool, buckets: set<nat>)

  ghost function EntryOf(infos: Infos, news: Table, id: int): Entry
    requires id in infos
  {
    Entry(SavedOf(infos[id]), infos[id].fInTried, set s | s in news && news[s] == id :: s.0)
  }

  ghost function View(infos: Infos, addrs: map<NetAddr, int>, news: Table): map<NetAddr, Entry> {
    map ip | ip in addrs && addrs[ip] in infos :: EntryOf(infos, news, addrs[ip])
  }

  /** Up to the numbering of the entries, tables that were copied completely show the same. */
  lemma SameView(src: Source, infos: Infos, addrs: map<NetAddr, int>, news: Table)
    requires Sound(src) && Restoring(src, infos, |Ids(src)|) && Indexed(infos, addrs)
    requires Copying(src, news, src.news.Keys)
    ensures View(infos, addrs, news) == View(src.infos, src.addrs, src.news)
  {
    hide Copying, NewOk, TriedOk, Referenced, Ids, InOrder;
    var v, w := View(infos, addrs, news), View(src.infos, src.addrs, src.news);
    forall ip | ip in w ensures ip in v && v[ip] == w[ip] {
      var j := PlaceOf(src, src.addrs[ip]);
      SameEntry(src, infos, news, j);
      assert addrs[ip] == j;
    }
    forall ip | ip in v ensures ip in w { SameEntry(src, infos, news, addrs[ip]); }
  }

  lemma SameEntry(src: Source, infos: Infos, news: Table, j: nat)
    requires Sound(src) && Restoring(src, infos, |Ids(src)|) && Copying(src, news, src.news.Keys) && j < |Ids(src)|
    ensures Ids(src)[j] in src.infos && j in infos
    ensures EntryOf(infos, news, j) == EntryOf(src.infos, src.news, Ids(src)[j])
  {
    assert IsRestored(src, infos[j], j);
    SameBuckets(src, news, j);
    Renumbered(src);
    BucketsOf(news, j);
    BucketsOf(src.news, Ids(src)[j]);
  }

  lemma BucketsOf(news: Table, id: int)
    ensures (set s | s in news && news[s] == id :: s.0) == set s | s in Slots(news, id) :: s.0
  {
  }

  lemma SameBuckets(src: Source, news: Table, j: nat)
    requires Sound(src) && Copying(src, news, src.news.Keys) && j < |Ids(src)|
    ensures Slots(news, j) == Slots(src.news, Ids(src)[j])
  {
    Renumbered(src);
    forall s: Slot ensures s in news && news[s] == j <==> s in src.news && src.news[s] == Ids(src)[j] {
      if s in news { assert Ids(src)[news[s]] == src.news[s]; }
    }
  }

  /** A table with buckets of 64 slots holds at most that many entries. */
  ghost function Holds(t: Table, n: nat): set<int> { set s | s in t && BUCKET_SIZE * s.0 + s.1 < n :: t[s] }

  lemma {:induction false} Capacity(t: Table, n: nat)
    requires forall s: Slot | s in t :: s.1 < BUCKET_SIZE
    ensures |Holds(t, n)| <= n
  {
    if n == 0 {
      assert Holds(t, n) == {};
    } else {
      var s: Slot := ((n - 1) / BUCKET_SIZE, (n - 1) % BUCKET_SIZE);
      Capacity(t, n - 1);
      var more := if s in t then {t[s]} else {};
      assert forall r: Slot | r in t && BUCKET_SIZE * r.0 + r.1 == n - 1 :: r == s;
      assert Holds(t, n) <= Holds(t, n - 1) + more;
      SubsetSize(Holds(t, n), Holds(t, n - 1) + more);
    }
  }

  /** A file that was written passes the limits of the reader. */
  lemma Limits(src: Source)
    requires Sound(src)
    ensures |NewList(src)| <= NEW_BUCKET_COUNT * BUCKET_SIZE && |TriedList(src)| <= TRIED_BUCKET_COUNT * BUCKET_SIZE
  {
    var n, t := NewIds(src.infos), TriedIds(src.infos);
    InOrderSize(n, src.count);
    InOrderSize(t, src.count);
    hide InOrder;
    forall id | id in n ensures id in Holds(src.news, NEW_BUCKET_COUNT * BUCKET_SIZE) {
      var b := SomeSlot(src.hs, src.infos, src.news, id);
      var s := NewSlot(src.hs, src.infos[id].addr, b);
      assert BUCKET_SIZE * s.0 + s.1 < NEW_BUCKET_COUNT * BUCKET_SIZE;
    }
    forall id | id in t ensures id in Holds(src.tried, TRIED_BUCKET_COUNT * BUCKET_SIZE) {
      var s := TriedSlot(src.hs, src.infos[id].addr);
      assert BUCKET_SIZE * s.0 + s.1 < TRIED_BUCKET_COUNT * BUCKET_SIZE;
    }
    Capacity(src.news, NEW_BUCKET_COUNT * BUCKET_SIZE);
    Capacity(src.tried, TRIED_BUCKET_COUNT * BUCKET_SIZE);
    SubsetSize(n, Holds(src.news, NEW_BUCKET_COUNT * BUCKET_SIZE));
    SubsetSize(t, Holds(src.tried, TRIED_BUCKET_COUNT * BUCKET_SIZE));
  }

  lemma {:induction false} RangeSize(s: set<int>, a: int, b: int)
    requires a <= b && forall x :: x in s <==> a <= x < b
    ensures |s| == b - a
    decreases b - a
  {
    if a == b {
      assert forall x :: x !in s;
      assert s == {};
    } else {
      RangeSize(s - {b - 1}, a, b - 1);
    }
  }

  /** Everything read back is in as many buckets as before. */
  lemma AllPlaced(src: Source, infos: Infos, news: Table)
    requires Sound(src) && Restoring(src, infos, |Ids(src)|) && NewOk(src.hs, infos, news)
    requires Copying(src, news, src.news.Keys)
    ensures Referenced(infos, {}) && Unplaced(infos) == {}
    ensures |NewIds(infos)| == |NewList(src)| && |TriedIds(infos)| == |TriedList(src)|
  {
    hide Indexed, TriedOk, NewOk, Copying, Sound, Ids, InOrder;
    forall j | 0 <= j < |Ids(src)|
      ensures infos[j].fInTried == (j >= |NewList(src)|)
      ensures !infos[j].fInTried ==> 1 <= infos[j].nRefCount <= NEW_BUCKETS_PER_ADDRESS
    {
      SamePlaces(src, infos, news, j);
    }
    assert |Ids(src)| == |NewList(src)| + |TriedList(src)| by { IdsSize(src); }
    RangeSize(NewIds(infos), 0, |NewList(src)|);
    RangeSize(TriedIds(infos), |NewList(src)|, |Ids(src)|);
  }

  lemma IdsSize(src: Source)
    ensures |Ids(src)| == |NewList(src)| + |TriedList(src)|
  {
  }

  lemma SamePlaces(src: Source, infos: Infos, news: Table, j: nat)
    requires Sound(src) && Restoring(src, infos, |Ids(src)|) && NewOk(src.hs, infos, news)
    requires Copying(src, news, src.news.Keys)
    requires j < |Ids(src)|
    ensures infos[j].fInTried == (j >= |NewList(src)|)
    ensures !infos[j].fInTried ==> 1 <= infos[j].nRefCount <= NEW_BUCKETS_PER_ADDRESS
  {
    Renumbered(src);
    assert IsRestored(src, infos[j], j);
    SameBuckets(src, news, j);
    Counted(src.hs, infos, news, j);
    Counted(src.hs, src.infos, src.news, Ids(src)[j]);
    hide Indexed, TriedOk, NewOk, Copying, Ids, InOrder;
    if !infos[j].fInTried { ReferencedAt(src.infos, Ids(src)[j]); }
  }

  lemma StillRestored(src: Source, was: Infos, now: Infos)
    requires Restoring(src, was, |Ids(src)|) && KeptBut(was, now, {})
    ensures Restoring(src, now, |Ids(src)|)
  {
    forall j | 0 <= j < |Ids(src)| ensures IsRestored(src, now[j], j) { assert IsRestored(src, was[j], j); }
  }

  /** The entries of the file, in order. */
  ghost function All(f: File): seq<Saved> { f.news + f.tried }

  /** The number of buckets in the file; a number that is negative as a signed one stands for none. */
  function Buckets(f: File): nat {
    var n := if f.nVersion != 0 then Marked(f.nUBuckets) else f.nUBuckets;
    if n < 0x8000_0000 then n as nat else 0
  }

  predicate Usable(f: File) { f.nVersion == 1 && Buckets(f) == NEW_BUCKET_COUNT }

  /** The file has all the entries and buckets its header speaks of, and no address twice. */
  ghost predicate Proper(f: File) {
    |f.news| == f.nNew && |f.tried| == f.nTried && |f.buckets| == Buckets(f) && DistinctIps(All(f))
  }

  lemma WrittenNew(f: File, src: Option<Source>, hs: Hashing, n: nat)
    requires WrittenFrom(f, src, hs) && n < |f.news|
    ensures src.Some? ==>
      && |f.news| == |NewList(src.value)| && Ids(src.value)[n] in src.value.infos
      && f.news[n] == SavedOf(src.value.infos[Ids(src.value)[n]])
  {
    if src.Some? { assert Ids(src.value)[n] == NewList(src.value)[n]; }
  }

  lemma WrittenUsable(f: File, src: Option<Source>, hs: Hashing)
    requires WrittenFrom(f, src, hs)
    ensures src.Some? ==> Usable(f) && |f.news| == |NewList(src.value)| && |f.tried| == |TriedList(src.value)|
  {
    Unmarked();
  }

  method ReadNewEntries(m: AddrMan, f: File, ghost src: Option<Source>)
    requires Proper(f) && WrittenFrom(f, src, m.Hs())
    requires m.Linked() && m.mapInfo == map[] && m.mapAddr == map[] && m.vRandom == [] && m.vvNew == map[]
    requires m.nNew == f.nNew
    modifies m`mapInfo, m`mapAddr, m`vRandom, m`nIdCount, m`vvNew
    ensures Loading(m, All(f), |f.news|, |f.news|, |f.news|) && m.nIdCount == |f.news| && Follows(m, src, |f.news|)
  {
    hide Indexed, Shuffled, TriedOk, NewOk, Restoring, Seen, Proper, All, WrittenFrom;
    ProperCounts(f);
    ReadAllNew(m, f, src);
    m.nIdCount := m.nNew;
  }

  method ReadAllNew(m: AddrMan, f: File, ghost src: Option<Source>)
    requires Proper(f) && WrittenFrom(f, src, m.Hs())
    requires m.Linked() && m.mapInfo == map[] && m.mapAddr == map[] && m.vRandom == [] && m.vvNew == map[]
    requires m.nNew == f.nNew
    modifies m`mapInfo, m`mapAddr, m`vRandom, m`vvNew
    ensures Loading(m, All(f), |f.news|, |f.news|, |f.news|) && Follows(m, src, |f.news|)
  {
    hide *;
    LoadingStart(m, f, src);
    WrittenUsable(f, src, m.Hs());
    ProperCounts(f);
    var usable := Usable(f);
    for n := 0 to m.nNew
      invariant Loading(m, All(f), n, |f.news|, n) && Follows(m, src, n) && WrittenFrom(f, src, m.Hs())
    {
      WrittenNew(f, src, m.Hs(), n);
      NextNew(f, n);
      ReadNew(m, n, f.news[n], usable, All(f), |f.news|, src);
    }
  }

  lemma NextNew(f: File, n: nat)
    requires n < |f.news|
    ensures |f.news| <= |All(f)| && All(f)[n] == f.news[n]
  {
  }

  lemma LoadingStart(m: AddrMan, f: File, src: Option<Source>)
    requires Proper(f) && WrittenFrom(f, src, m.Hs())
    requires m.Linked() && m.mapInfo == map[] && m.mapAddr == map[] && m.vRandom == [] && m.vvNew == map[]
    ensures Loading(m, All(f), 0, |f.news|, 0) && Follows(m, src, 0)
  {
  }

  method ReadTriedEntries(m: AddrMan, f: File, ghost src: Option<Source>) returns (ghost count: nat)
    requires Proper(f) && WrittenFrom(f, src, m.Hs()) && m.nTried == f.nTried && m.nIdCount == |f.news|
    requires Loading(m, All(f), |f.news|, |f.news|, |f.news|) && Follows(m, src, |f.news|)
    modifies m`mapInfo, m`mapAddr, m`vRandom, m`vvTried, m`nIdCount, m`nTried
    ensures Loading(m, All(f), |All(f)|, |f.news|, count) && m.nIdCount == count == |f.news| + m.nTried && m.nTried >= 0
    ensures Follows(m, src, |f.news| + |f.tried|)
  {
    var nLost := ReadAllTried(m, f, src);
    hide Indexed, Shuffled, TriedOk, NewOk, Restoring, Seen, Proper, All;
    ProperCounts(f);
    m.nTried := m.nTried - nLost;
    count := m.nIdCount;
  }

  method ReadAllTried(m: AddrMan, f: File, ghost src: Option<Source>) returns (nLost: nat)
    requires Proper(f) && WrittenFrom(f, src, m.Hs()) && m.nTried == f.nTried && m.nIdCount == |f.news|
    requires Loading(m, All(f), |f.news|, |f.news|, |f.news|) && Follows(m, src, |f.news|)
    modifies m`mapInfo, m`mapAddr, m`vRandom, m`vvTried, m`nIdCount
    ensures Loading(m, All(f), |f.news| + |f.tried|, |f.news|, m.nIdCount) && Follows(m, src, |f.news| + |f.tried|)
    ensures m.nIdCount == |f.news| + |f.tried| - nLost && nLost <= |f.tried|
  {
    hide *;
    ProperCounts(f);
    nLost := 0;
    for n := 0 to m.nTried
      invariant m.nIdCount == |f.news| + n - nLost && nLost <= n && (src.Some? ==> nLost == 0)
      invariant Loading(m, All(f), |f.news| + n, |f.news|, m.nIdCount) && Follows(m, src, |f.news| + n)
      invariant WrittenFrom(f, src, m.Hs())
    {
      var lost := ReadNextTried(m, f, n, src);
      nLost := nLost + if lost then 1 else 0;
    }
  }

  lemma ProperCounts(f: File)
    requires Proper(f)
    ensures |f.tried| == f.nTried && |f.news| == f.nNew && |All(f)| == |f.news| + |f.tried| && DistinctIps(All(f))
    ensures forall n | 0 <= n < |f.tried| :: All(f)[|f.news| + n] == f.tried[n]
  {
  }

  method ReadNextTried(m: AddrMan, f: File, n: nat, ghost src: Option<Source>) returns (lost: bool)
    requires Proper(f) && WrittenFrom(f, src, m.Hs()) && n < |f.tried| && |f.news| <= m.nIdCount
    requires Loading(m, All(f), |f.news| + n, |f.news|, m.nIdCount) && Follows(m, src, |f.news| + n)
    requires src.Some? ==> m.nIdCount == |f.news| + n
    modifies m`mapInfo, m`mapAddr, m`vRandom, m`vvTried, m`nIdCount
    ensures Loading(m, All(f), |f.news| + n + 1, |f.news|, m.nIdCount) && Follows(m, src, |f.news| + n + 1)
    ensures m.nIdCount == old(m.nIdCount) + (if lost then 0 else 1) && (src.Some? ==> !lost) && m.Hs() == old(m.Hs())
  {
    hide Indexed, Shuffled, TriedOk, NewOk, Sound, Ids, InOrder, NewList, TriedList, Restoring, TriedSlot, Seen;
    hide DistinctIps;
    hide Wrote, Proper, All;
    ProperCounts(f);
    ghost var k := |f.news| + n;
    NextUnseen(All(f), k, m.mapAddr);
    if src.Some? {
      WrittenTried(f, src.value, n);
      NextIsFree(src.value, m.mapInfo, m.vvTried, k);
      RestoringNext(src.value, m.mapInfo, k, Restored(f.tried[n], true, |m.vRandom|));
    }
    lost := ReadTried(m, f.tried[n]);
  }

  lemma WrittenTried(f: File, src: Source, n: nat)
    requires Sound(src) && Wrote(f, src) && n < |f.tried|
    ensures |f.news| == |NewList(src)| && |f.news| + n < |Ids(src)| && Ids(src)[|f.news| + n] in src.infos
    ensures IsRestored(src, Restored(f.tried[n], true, 0), |f.news| + n)
    ensures forall pos :: IsRestored(src, Restored(f.tried[n], true, pos), |f.news| + n)
  {
    assert Ids(src)[|f.news| + n] == TriedList(src)[n];
  }

  lemma DoneNone(src: Source)
    ensures Done(src, 0, 0) == {}
  {
  }

  lemma DoneAll(src: Source)
    requires Sound(src)
    ensures Done(src, NEW_BUCKET_COUNT, 0) == src.news.Keys
  {
  }

  method ReadBuckets(m: AddrMan, f: File, ghost count: nat, ghost src: Option<Source>)
    requires Proper(f) && WrittenFrom(f, src, m.Hs()) && Loaded(m, All(f), count) && Fills(m, src, {})
    modifies m`mapInfo, m`vvNew
    ensures Loaded(m, All(f), count)
    ensures src.Some? ==> Refilling(m, src.value, src.value.news.Keys)
  {
    hide *;
    var nUBuckets, usable := Buckets(f), Usable(f);
    BucketFacts(f, src, m.Hs());
    for bucket := 0 to nUBuckets
      invariant Loaded(m, All(f), count) && Fills(m, src, DoneBefore(src, bucket))
    {
      ReadBucket(m, bucket, f.buckets[bucket], usable, All(f), count, src);
    }
    AllFilled(m, src);
  }

  lemma BucketFacts(f: File, src: Option<Source>, hs: Hashing)
    requires Proper(f) && WrittenFrom(f, src, hs)
    ensures |f.buckets| == Buckets(f) && (Usable(f) ==> Buckets(f) == NEW_BUCKET_COUNT) && DoneBefore(src, 0) == {}
    ensures src.Some? ==> Usable(f) && Sound(src.value)
    ensures src.Some? ==> forall b | 0 <= b < |f.buckets| :: BucketWrote(f.buckets[b], src.value, b, BUCKET_SIZE)
  {
    WrittenUsable(f, src, hs);
    if src.Some? { DoneNone(src.value); }
  }

  lemma AllFilled(m: AddrMan, src: Option<Source>)
    requires src.Some? ==> Sound(src.value)
    requires Fills(m, src, DoneBefore(src, NEW_BUCKET_COUNT))
    ensures src.Some? ==> Refilling(m, src.value, src.value.news.Keys)
  {
    if src.Some? { DoneAll(src.value); }
  }

  lemma Unmarked()
    ensures Marked(Marked(1024)) as nat == NEW_BUCKET_COUNT
  {
    assert Marked(Marked(1024)) == 1024;
  }

  method ReadTables(m: AddrMan, f: File, ghost src: Option<Source>) returns (ghost count: nat)
    requires Proper(f) && WrittenFrom(f, src, m.Hs()) && m.nNew == f.nNew && m.nTried == f.nTried
    requires m.Linked() && m.mapInfo == map[] && m.mapAddr == map[] && m.vRandom == [] && m.vvNew == map[]
    modifies m`mapInfo, m`mapAddr, m`vRandom, m`vvTried, m`vvNew, m`nIdCount, m`nTried
    ensures Loaded(m, All(f), count) && m.nIdCount == count == m.nNew + m.nTried
    ensures src.Some? ==> Refilling(m, src.value, src.value.news.Keys)
  {
    hide Loading, Follows, Fills, WrittenFrom, Proper, All, Refilling, Sound, AddrMan.Linked;
    ProperCounts(f);
    ReadNewEntries(m, f, src);
    count := ReadTriedEntries(m, f, src);
    LoadingLinked(m, All(f), |All(f)|, |f.news|, count);
    NowFills(m, f, src);
    ReadBuckets(m, f, count, src);
  }

  lemma LoadingLinked(m: AddrMan, all: seq<Saved>, k: nat, news: nat, count: nat)
    requires Loading(m, all, k, news, count)
    ensures m.Linked()
  {
  }

  lemma NowFills(m: AddrMan, f: File, src: Option<Source>)
    requires Proper(f) && WrittenFrom(f, src, m.Hs()) && Follows(m, src, |f.news| + |f.tried|) && m.nNew == f.nNew
    requires src.Some? ==> m.Linked()
    ensures Fills(m, src, {})
  {
    if src.Some? {
      CopyingNone(src.value);
      IdsSize(src.value);
      hide Restoring, Copying, Sound, AddrMan.Linked, Ids, NewList, TriedList;
    }
  }

  lemma CopyingNone(src: Source)
    ensures Copying(src, map[], {})
  {
  }

  /** Reads a file. Unless it is refused, the tables are consistent afterwards, whatever its version, its buckets and
      the hashes they were made with; and if the file was written from tables with the same hashes, they show the same,
      up to the numbering of the entries. */
  method Unserialize(m: AddrMan, f: File, ghost src: Option<Source>) returns (ok: bool)
    requires Proper(f) && WrittenFrom(f, src, m.hashes(f.nKey))
    modifies m
    ensures ok <==>
      f.nKeySize == 32 && f.nNew <= NEW_BUCKET_COUNT * BUCKET_SIZE && f.nTried <= TRIED_BUCKET_COUNT * BUCKET_SIZE
    ensures ok ==> m.Valid() && m.nKey == f.nKey
    ensures src.Some? ==>
      ok && View(m.mapInfo, m.mapAddr, m.vvNew) == View(src.value.infos, src.value.addrs, src.value.news)
    ensures src.Some? && Timed(src.value.infos) ==> Timed(m.mapInfo)
  {
    hide Loaded, Refilling, Wrote, View, Timed, WrittenFrom, Proper, All, Sound;
    hide Indexed, Shuffled, TriedOk, NewOk, TriedIds, NewIds, Referenced;
    WrittenPasses(f, src, m.hashes(f.nKey));
    Clear(m, f.nKey);
    m.nNew, m.nTried := f.nNew, f.nTried;
    ok := f.nKeySize == 32 && m.nNew <= NEW_BUCKET_COUNT * BUCKET_SIZE && m.nTried <= TRIED_BUCKET_COUNT * BUCKET_SIZE;
    if ok {
      ghost var count := ReadTables(m, f, src);
      Finish(m, All(f), count, src);
    }
  }

  lemma WrittenPasses(f: File, src: Option<Source>, hs: Hashing)
    requires WrittenFrom(f, src, hs)
    ensures src.Some? ==> Sound(src.value) && f.nKeySize == 32
    ensures src.Some? ==> f.nNew <= NEW_BUCKET_COUNT * BUCKET_SIZE && f.nTried <= TRIED_BUCKET_COUNT * BUCKET_SIZE
  {
    if src.Some? { Limits(src.value); }
  }

  /** What was loaded is consistent but for entries in no bucket. */
  lemma LoadedCore(m: AddrMan, all: seq<Saved>, count: nat)
    requires Loaded(m, all, count) && m.nIdCount == count == m.nNew + m.nTried
    ensures m.Core() && m.nNew == |NewIds(m.mapInfo)| && Referenced(m.mapInfo, m.mapInfo.Keys)
  {
    hide Indexed, Shuffled, TriedOk, NewOk, Seen;
    RangeSize(NewIds(m.mapInfo), 0, m.nNew);
    RangeSize(TriedIds(m.mapInfo), m.nNew, count);
  }

  method Finish(m: AddrMan, ghost all: seq<Saved>, ghost count: nat, ghost src: Option<Source>)
    requires Loaded(m, all, count) && m.nIdCount == count == m.nNew + m.nTried
    requires src.Some? ==> Sound(src.value) && Refilling(m, src.value, src.value.news.Keys)
    modifies m`mapInfo, m`mapAddr, m`vRandom, m`nNew
    ensures m.Valid()
    ensures src.Some? ==> View(m.mapInfo, m.mapAddr, m.vvNew) == View(src.value.infos, src.value.addrs, src.value.news)
    ensures src.Some? && Timed(src.value.infos) ==> Timed(m.mapInfo)
  {
    hide Indexed, Shuffled, TriedOk, NewOk, Sound, Ids, InOrder, NewList, TriedList, Restoring, Copying,
      Referenced, Unplaced, KeptBut, View, Loaded, Timed, NewIds, TriedIds;
    LoadedCore(m, all, count);
    ghost var was := m.mapInfo;
    m.Prune();
    if src.Some? {
      AllPlaced(src.value, was, m.vvNew);
      StillRestored(src.value, was, m.mapInfo);
      SameView(src.value, m.mapInfo, m.mapAddr, m.vvNew);
      if Timed(src.value.infos) { RestoredTimed(src.value, m.mapInfo); }
    }
  }

  lemma RestoredTimed(src: Source, infos: Infos)
    requires Sound(src) && Restoring(src, infos, |Ids(src)|) && Timed(src.infos)
    ensures Timed(infos)
  {
    Renumbered(src);
    hide Indexed, TriedOk, NewOk, Ids, InOrder;
    forall j | j in infos
      ensures infos[j].nLastSuccess >= 0 && infos[j].nLastTry >= 0 && (infos[j].fInTried ==> infos[j].nLastSuccess != 0)
    {
      assert IsRestored(src, infos[j], j);
      TimedAt(src.infos, Ids(src)[j]);
    }
  }

  /** A file that was written is complete and has no address twice. */
  lemma WroteProper(m: AddrMan, f: File)
    requires m.Valid() && Wrote(f, SourceOf(m))
    ensures Sound(SourceOf(m)) && Proper(f)
  {
    var src := SourceOf(m);
    assert Sound(src);
    WrittenUsable(f, Some(src), src.hs);
    Renumbered(src);
    IdsSize(src);
    hide Ids, NewList, TriedList, Sound;
    forall i, j | 0 <= i < j < |All(f)| ensures All(f)[i].addr.ip != All(f)[j].addr.ip {
      WroteAt(f, src, i);
      WroteAt(f, src, j);
    }
  }

  lemma WroteAt(f: File, src: Source, i: nat)
    requires Sound(src) && Wrote(f, src) && i < |All(f)|
    ensures i < |Ids(src)| && All(f)[i].addr.ip in src.addrs && src.addrs[All(f)[i].addr.ip] == Ids(src)[i]
  {
    hide InOrder, TriedOk, NewOk, Referenced, BucketWrote;
    if i < |f.news| {
      assert All(f)[i] == f.news[i] && Ids(src)[i] == NewList(src)[i];
    } else {
      assert All(f)[i] == f.tried[i - |f.news|] && Ids(src)[i] == TriedList(src)[i - |f.news|];
    }
    assert All(f)[i] == SavedOf(src.infos[Ids(src)[i]]);
  }

  /** Saving an address manager and loading the file into another loses nothing. */
  method SaveAndLoad(m: AddrMan, loaded: AddrMan)
    requires m.Valid() && loaded != m && loaded.hashes == m.hashes
    modifies loaded
    ensures loaded.Valid() && loaded.nKey == m.nKey && (Timed(m.mapInfo) ==> Timed(loaded.mapInfo))
    ensures View(loaded.mapInfo, loaded.mapAddr, loaded.vvNew) == View(m.mapInfo, m.mapAddr, m.vvNew)
  {
    hide Indexed, Shuffled, TriedOk, NewOk, Referenced, View, Wrote, Timed;
    var f := Serialize(m);
    WroteProper(m, f);
    var _ := Unserialize(loaded, f, Some(SourceOf(m)));
  }
}
