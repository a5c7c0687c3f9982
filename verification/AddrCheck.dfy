/** The consistency check of the address manager (CAddrMan::Check_ in src/addrman.cpp), and how it relates to the
    invariant that the operations are proved to keep. */
module AddrCheck {
  import opened AddrTables
  import opened AddrManager

  /** mapAddr[ip], which is 0 for an address that is not there. */
  function Lookup(addrs: map<NetAddr, int>, ip: NetAddr): int { if ip in addrs then addrs[ip] else 0 }

  /** What is asked of one entry. */
  predicate EntryOk(id: int, info: AddrInfo, addrs: map<NetAddr, int>, random: seq<int>) {
    && (if info.fInTried then info.nLastSuccess != 0 && info.nRefCount == 0
        else 1 <= info.nRefCount <= NEW_BUCKETS_PER_ADDRESS)
    && Lookup(addrs, info.addr.ip) == id
    && 0 <= info.nRandomPos < |random| && random[info.nRandomPos] == id
    && info.nLastTry >= 0 && info.nLastSuccess >= 0
  }

  ghost predicate EntriesOk(infos: Infos, addrs: map<NetAddr, int>, random: seq<int>) {
    forall id | id in infos :: EntryOk(id, infos[id], addrs, random)
  }

  /** What the check asks for, all in all. */
  ghost predicate Passes(m: AddrMan)
    reads m
  {
    && |m.vRandom| == m.nTried + m.nNew && EntriesOk(m.mapInfo, m.mapAddr, m.vRandom)
    && m.nTried == |TriedIds(m.mapInfo)| && m.nNew == |NewIds(m.mapInfo)|
    && TriedOk(m.Hs(), m.mapInfo, m.vvTried) && NewOk(m.Hs(), m.mapInfo, m.vvNew) && m.nKey != 0
  }

  // Sets and maps

  lemma AnyOf<T>(s: set<T>) returns (x: T)
    requires s != {}
    ensures x in s
  {
    x :| x in s;
  }

  lemma AnyKey<K, V>(m: map<K, V>) returns (k: K)
    requires m != map[]
    ensures k in m
  {
    k :| k in m;
  }

  lemma SameSize<T>(a: set<T>, b: set<T>)
    requires a <= b && |a| == |b|
    ensures a == b
  {
    if x :| x in b && x !in a { SubsetSize(a, b - {x}); }
  }

  // The entries

  /** The first loop: the entries in `rest` are still to be looked at. */
  ghost predicate Sorting(infos: Infos, rest: Infos, setTried: set<int>, mapNew: map<int, int>) {
    && (forall id | id in rest :: id in infos && rest[id] == infos[id])
    && setTried == TriedIds(infos) - rest.Keys && mapNew.Keys == NewIds(infos) - rest.Keys
    && (forall id | id in mapNew :: id in infos && mapNew[id] == infos[id].nRefCount)
  }

  lemma SortingStart(infos: Infos)
    ensures Sorting(infos, infos, {}, map[])
  {
    var none: map<int, int> := map[];
    assert TriedIds(infos) - infos.Keys == {} && NewIds(infos) - infos.Keys == {} == none.Keys;
  }

  lemma SortingNext(infos: Infos, rest: Infos, setTried: set<int>, mapNew: map<int, int>, id: int)
    requires Sorting(infos, rest, setTried, mapNew) && id in rest
    ensures if rest[id].fInTried then Sorting(infos, rest - {id}, setTried + {id}, mapNew)
            else Sorting(infos, rest - {id}, setTried, mapNew[id := rest[id].nRefCount])
  {
    assert (rest - {id}).Keys == rest.Keys - {id};
    var tried, news := TriedIds(infos), NewIds(infos);
    if rest[id].fInTried {
      assert id in tried && id !in news;
      hide TriedIds, NewIds;
      assert tried - (rest.Keys - {id}) == (tried - rest.Keys) + {id};
      assert news - (rest.Keys - {id}) == news - rest.Keys;
    } else {
      assert id !in tried && id in news;
      hide TriedIds, NewIds;
      assert tried - (rest.Keys - {id}) == tried - rest.Keys;
      assert news - (rest.Keys - {id}) == (news - rest.Keys) + {id};
    }
  }

  method CheckEntry(id: int, info: AddrInfo, addrs: map<NetAddr, int>, random: seq<int>) returns (code: int)
    ensures code == 0 <==> EntryOk(id, info, addrs, random)
  {
    if info.fInTried {
      if info.nLastSuccess == 0 { return -1; }
      if info.nRefCount != 0 { return -2; }
    } else {
      if info.nRefCount < 0 || info.nRefCount > NEW_BUCKETS_PER_ADDRESS { return -3; }
      if info.nRefCount == 0 { return -4; }
    }
    if Lookup(addrs, info.addr.ip) != id { return -5; }
    if info.nRandomPos < 0 || info.nRandomPos >= |random| || random[info.nRandomPos] != id { return -14; }
    if info.nLastTry < 0 { return -6; }
    if info.nLastSuccess < 0 { return -8; }
    return 0;
  }

  lemma SortingRest(infos: Infos, rest: Infos, setTried: set<int>, mapNew: map<int, int>, id: int)
    requires Sorting(infos, rest, setTried, mapNew) && id in rest
    ensures id in infos && rest[id] == infos[id]
  {
  }

  lemma SortingEnd(infos: Infos, setTried: set<int>, mapNew: map<int, int>)
    requires Sorting(infos, map[], setTried, mapNew)
    ensures setTried == TriedIds(infos) && mapNew.Keys == NewIds(infos)
    ensures forall id | id in mapNew :: id in infos && mapNew[id] == infos[id].nRefCount
  {
    var none: Infos := map[];
    assert none.Keys == {};
  }

  method CheckEntries(m: AddrMan) returns (code: int, setTried: set<int>, mapNew: map<int, int>)
    ensures code == 0 <==> EntriesOk(m.mapInfo, m.mapAddr, m.vRandom)
    ensures code == 0 ==> setTried == TriedIds(m.mapInfo) && mapNew.Keys == NewIds(m.mapInfo)
    ensures code == 0 ==> forall id | id in mapNew :: id in m.mapInfo && mapNew[id] == m.mapInfo[id].nRefCount
  {
    hide EntryOk;
    hide TriedIds, NewIds, Sorting;
    setTried, mapNew := {}, map[];
    var rest := m.mapInfo;
    SortingStart(m.mapInfo);
    while rest != map[]
      invariant Sorting(m.mapInfo, rest, setTried, mapNew)
      invariant forall id | id in m.mapInfo && id !in rest :: EntryOk(id, m.mapInfo[id], m.mapAddr, m.vRandom)
      decreases |rest|
    {
      ghost var any := AnyKey(rest);
      var id :| id in rest;
      SortingNext(m.mapInfo, rest, setTried, mapNew, id);
      assert rest[id] == m.mapInfo[id] by { SortingRest(m.mapInfo, rest, setTried, mapNew, id); }
      var info := rest[id];
      code := CheckEntry(id, info, m.mapAddr, m.vRandom);
      if code != 0 { return; }
      if info.fInTried { setTried := setTried + {id}; } else { mapNew := mapNew[id := info.nRefCount]; }
      rest := rest - {id};
    }
    SortingEnd(m.mapInfo, setTried, mapNew);
    code := 0;
  }

  // The tried table

  ghost predicate TriedSlotOk(hs: Hashing, infos: Infos, tried: Table, s: Slot)
    requires s in tried
  {
    tried[s] in infos && infos[tried[s]].fInTried && s == TriedSlot(hs, infos[tried[s]].addr)
  }

  /** The slots outside `rest` are fine, and the entries found there were taken out of the set. */
  ghost predicate GoingTried(hs: Hashing, infos: Infos, tried: Table, rest: Table, left: set<int>) {
    && (forall s | s in rest :: s in tried && rest[s] == tried[s])
    && (forall s: Slot | s in tried && s !in rest :: TriedSlotOk(hs, infos, tried, s))
    && (forall id ::
          id in left <==> id in TriedIds(infos) && !exists s: Slot :: s in tried && s !in rest && tried[s] == id)
  }

  lemma TriedNext(hs: Hashing, infos: Infos, tried: Table, rest: Table, left: set<int>, s: Slot)
    requires GoingTried(hs, infos, tried, rest, left) && s in rest && TriedSlotOk(hs, infos, tried, s)
    ensures rest[s] in left && GoingTried(hs, infos, tried, rest - {s}, left - {rest[s]})
  {
    hide TriedSlot;
    var id := rest[s];
    forall r: Slot | r in tried && r !in rest ensures tried[r] != id { assert TriedSlotOk(hs, infos, tried, r); }
    assert id in TriedIds(infos);
    forall x
      ensures x in left - {id}
         <==> x in TriedIds(infos) && !exists r: Slot :: r in tried && r !in rest - {s} && tried[r] == x
    {
      if x == id { assert s in tried && s !in rest - {s} && tried[s] == x; }
    }
  }

  lemma TriedEnd(hs: Hashing, infos: Infos, tried: Table, left: set<int>)
    requires GoingTried(hs, infos, tried, map[], left)
    ensures left == {} <==> TriedOk(hs, infos, tried)
  {
    hide TriedSlot;
    if left == {} {
      forall id | id in infos && infos[id].fInTried
        ensures TriedSlot(hs, infos[id].addr) in tried && tried[TriedSlot(hs, infos[id].addr)] == id
      {
        assert id in TriedIds(infos) && id !in left;
        var s: Slot :| s in tried && tried[s] == id;
        assert TriedSlotOk(hs, infos, tried, s);
      }
    } else {
      var id := AnyOf(left);
      assert id in TriedIds(infos);
      var s := TriedSlot(hs, infos[id].addr);
      assert !(s in tried && tried[s] == id);
    }
  }

  method CheckTried(m: AddrMan, setTried: set<int>) returns (code: int)
    requires setTried == TriedIds(m.mapInfo)
    ensures code == 0 <==> TriedOk(m.Hs(), m.mapInfo, m.vvTried)
  {
    hide TriedSlot, GetTriedBucket, GetBucketPosition;
    var left, rest := setTried, m.vvTried;
    while rest != map[]
      invariant GoingTried(m.Hs(), m.mapInfo, m.vvTried, rest, left)
      decreases |rest|
    {
      hide GoingTried, TriedOk;
      ghost var any := AnyKey(rest);
      var s :| s in rest;
      RestTried(m.Hs(), m.mapInfo, m.vvTried, rest, left, s);
      if rest[s] !in left { return -11; }
      SlotParts(m.Hs(), m.mapInfo[rest[s]].addr, s);
      if GetTriedBucket(m.hashes(m.nKey), m.mapInfo[rest[s]].addr) != s.0 { return -17; }
      if GetBucketPosition(m.hashes(m.nKey), m.mapInfo[rest[s]].addr, false, s.0) != s.1 { return -18; }
      TriedNext(m.Hs(), m.mapInfo, m.vvTried, rest, left, s);
      left, rest := left - {rest[s]}, rest - {s};
    }
    TriedEnd(m.Hs(), m.mapInfo, m.vvTried, left);
    return if left != {} then -13 else 0;
  }

  lemma RestTried(hs: Hashing, infos: Infos, tried: Table, rest: Table, left: set<int>, s: Slot)
    requires GoingTried(hs, infos, tried, rest, left) && s in rest
    ensures s in tried && rest[s] == tried[s]
    ensures rest[s] in left ==> rest[s] in infos && infos[rest[s]].fInTried
    ensures rest[s] !in left ==> !TriedSlotOk(hs, infos, tried, s)
    ensures !TriedSlotOk(hs, infos, tried, s) ==> !TriedOk(hs, infos, tried)
  {
    hide TriedSlot;
    if TriedSlotOk(hs, infos, tried, s) { TriedNext(hs, infos, tried, rest, left, s); }
  }

  lemma SlotParts(hs: Hashing, a: Service, s: Slot)
    ensures s == TriedSlot(hs, a) <==> GetTriedBucket(hs, a) == s.0 && GetBucketPosition(hs, a, false, s.0) == s.1
    ensures s == NewSlot(hs, a, s.0) <==> GetBucketPosition(hs, a, true, s.0) == s.1
  {
  }

  // The new table

  ghost predicate NewSlotOk(hs: Hashing, infos: Infos, news: Table, s: Slot)
    requires s in news
  {
    && news[s] in infos && !infos[news[s]].fInTried
    && s.0 < NEW_BUCKET_COUNT && s == NewSlot(hs, infos[news[s]].addr, s.0)
  }

  /** The slots outside `rest` are fine, and every entry is left with as many references as it has to have in `rest`. */
  ghost predicate GoingNew(hs: Hashing, infos: Infos, news: Table, rest: Table, left: map<int, int>) {
    && (forall s | s in rest :: s in news && rest[s] == news[s])
    && (forall s: Slot | s in news && s !in rest :: NewSlotOk(hs, infos, news, s))
    && (forall id | id in left :: id in NewIds(infos) && left[id] > 0)
    && (forall id | id in NewIds(infos) ::
          infos[id].nRefCount == |Slots(news, id)| - |Slots(rest, id)| + if id in left then left[id] else 0)
  }

  lemma NewStart(hs: Hashing, infos: Infos, news: Table, left: map<int, int>)
    requires left.Keys == NewIds(infos)
    requires forall id | id in left :: left[id] == infos[id].nRefCount > 0
    ensures GoingNew(hs, infos, news, news, left)
  {
  }

  lemma NewNext(hs: Hashing, infos: Infos, news: Table, rest: Table, left: map<int, int>, s: Slot)
    requires GoingNew(hs, infos, news, rest, left) && s in rest && NewSlotOk(hs, infos, news, s) && rest[s] in left
    ensures var id := rest[s];
      GoingNew(hs, infos, news, rest - {s}, if left[id] == 1 then left - {id} else left[id := left[id] - 1])
  {
    hide NewSlot, Slots;
    var id := rest[s];
    forall x ensures |Slots(rest - {s}, x)| == |Slots(rest, x)| - if x == id then 1 else 0 { SlotsRemoved(rest, s, x); }
  }

  /** A slot with an entry that has no references left is one too many. */
  lemma NewTooMany(hs: Hashing, infos: Infos, news: Table, rest: Table, left: map<int, int>, s: Slot)
    requires GoingNew(hs, infos, news, rest, left) && s in rest && rest[s] !in left
    ensures !NewOk(hs, infos, news)
  {
    hide NewSlot;
    var id := rest[s];
    assert s in Slots(rest, id) && s in news && news[s] == id;
    if id in NewIds(infos) {
      assert Slots(rest, id) == {s} + (Slots(rest, id) - {s});
    }
  }

  lemma NewEnd(hs: Hashing, infos: Infos, news: Table, left: map<int, int>)
    requires GoingNew(hs, infos, news, map[], left)
    requires forall id | id in infos && infos[id].fInTried :: infos[id].nRefCount == 0
    ensures left == map[] <==> NewOk(hs, infos, news)
  {
    hide NewSlot;
    forall id ensures Slots(map[], id) == {} { }
    forall id | id in infos && infos[id].fInTried ensures |Slots(news, id)| == 0 {
      forall s | s in news ensures news[s] != id { assert NewSlotOk(hs, infos, news, s); }
      assert Slots(news, id) == {};
    }
    if left == map[] {
      forall id | id in infos ensures infos[id].nRefCount == |Slots(news, id)| {
        assert id in NewIds(infos) || infos[id].fInTried;
      }
    } else {
      var id := AnyKey(left);
      assert infos[id].nRefCount == |Slots(news, id)| + left[id];
    }
  }

  method CheckNew(m: AddrMan, mapNew: map<int, int>) returns (code: int)
    requires mapNew.Keys == NewIds(m.mapInfo)
    requires forall id | id in mapNew :: mapNew[id] == m.mapInfo[id].nRefCount > 0
    requires forall id | id in m.mapInfo && m.mapInfo[id].fInTried :: m.mapInfo[id].nRefCount == 0
    requires forall s | s in m.vvNew :: s.0 < NEW_BUCKET_COUNT
    ensures code == 0 <==> NewOk(m.Hs(), m.mapInfo, m.vvNew)
  {
    hide NewSlot, GetBucketPosition, Slots, GoingNew, NewOk;
    var left, rest := mapNew, m.vvNew;
    NewStart(m.Hs(), m.mapInfo, m.vvNew, left);
    while rest != map[]
      invariant GoingNew(m.Hs(), m.mapInfo, m.vvNew, rest, left)
      decreases |rest|
    {
      ghost var any := AnyKey(rest);
      var s :| s in rest;
      var id := rest[s];
      RestNew(m.Hs(), m.mapInfo, m.vvNew, rest, left, s);
      if id !in left {
        NewTooMany(m.Hs(), m.mapInfo, m.vvNew, rest, left, s);
        return -12;
      }
      SlotParts(m.Hs(), m.mapInfo[id].addr, s);
      if GetBucketPosition(m.hashes(m.nKey), m.mapInfo[id].addr, true, s.0) != s.1 { return -19; }
      NewNext(m.Hs(), m.mapInfo, m.vvNew, rest, left, s);
      left, rest := if left[id] == 1 then left - {id} else left[id := left[id] - 1], rest - {s};
    }
    NewEnd(m.Hs(), m.mapInfo, m.vvNew, left);
    return if left != map[] then -15 else 0;
  }

  lemma RestNew(hs: Hashing, infos: Infos, news: Table, rest: Table, left: map<int, int>, s: Slot)
    requires GoingNew(hs, infos, news, rest, left) && s in rest
    ensures s in news && rest[s] == news[s]
    ensures rest[s] in left ==> rest[s] in infos && !infos[rest[s]].fInTried
    ensures !NewSlotOk(hs, infos, news, s) ==> !NewOk(hs, infos, news)
  {
    hide NewSlot, Slots;
  }

  // The check

  /** Returns 0 if and only if everything it asks for holds. */
  method Check(m: AddrMan) returns (code: int)
    requires forall s | s in m.vvNew :: s.0 < NEW_BUCKET_COUNT
    ensures code == 0 <==> Passes(m)
    ensures m.Valid() && Timed(m.mapInfo) ==> code == if m.nKey == 0 then -16 else 0
  {
    hide TriedOk, NewOk, EntriesOk, NewIds, AddrMan.Valid;
    ValidPasses(m);
    if |m.vRandom| != m.nTried + m.nNew { return -7; }
    var setTried, mapNew;
    code, setTried, mapNew := CheckEntries(m);
    if code != 0 { return; }
    if |setTried| != m.nTried { return -9; }
    KeysSize(mapNew);
    if |mapNew| != m.nNew { return -10; }
    EntryCounts(m, mapNew);
    code := CheckTried(m, setTried);
    if code != 0 { return; }
    code := CheckNew(m, mapNew);
    if code != 0 { return; }
    return if m.nKey == 0 then -16 else 0;
  }

  lemma KeysSize(m: map<int, int>)
    ensures |m| == |m.Keys|
  {
  }

  lemma EntryCounts(m: AddrMan, mapNew: map<int, int>)
    requires EntriesOk(m.mapInfo, m.mapAddr, m.vRandom) && mapNew.Keys == NewIds(m.mapInfo)
    requires forall id | id in mapNew :: id in m.mapInfo && mapNew[id] == m.mapInfo[id].nRefCount
    ensures forall id | id in mapNew :: mapNew[id] == m.mapInfo[id].nRefCount > 0
    ensures forall id | id in m.mapInfo && m.mapInfo[id].fInTried :: m.mapInfo[id].nRefCount == 0
  {
    forall id | id in mapNew ensures mapNew[id] > 0 {
      assert id in NewIds(m.mapInfo) && EntryOk(id, m.mapInfo[id], m.mapAddr, m.vRandom);
    }
    forall id | id in m.mapInfo && m.mapInfo[id].fInTried ensures m.mapInfo[id].nRefCount == 0 {
      assert EntryOk(id, m.mapInfo[id], m.mapAddr, m.vRandom);
    }
  }

  /** The invariant of the operations, with times in order, implies all the check asks for but a key that is not
      null. */
  lemma ValidPasses(m: AddrMan)
    ensures m.Valid() && Timed(m.mapInfo) ==>
      && |m.vRandom| == m.nTried + m.nNew && EntriesOk(m.mapInfo, m.mapAddr, m.vRandom)
      && m.nTried == |TriedIds(m.mapInfo)| && m.nNew == |NewIds(m.mapInfo)|
      && TriedOk(m.Hs(), m.mapInfo, m.vvTried) && NewOk(m.Hs(), m.mapInfo, m.vvNew)
  {
    if m.Valid() && Timed(m.mapInfo) {
      m.Sizes();
      forall id | id in m.mapInfo ensures EntryOk(id, m.mapInfo[id], m.mapAddr, m.vRandom) {
        if m.mapInfo[id].fInTried { NoSlots(m.Hs(), m.mapInfo, m.vvNew, id); }
      }
    }
  }

  /** What the invariant adds to the check: every address is known under its entry's number, and numbers are in use. */
  ghost predicate Beyond(m: AddrMan)
    reads m
  {
    && (forall id | id in m.mapInfo :: m.mapInfo[id].addr.ip in m.mapAddr && 0 <= id < m.nIdCount)
    && (forall ip | ip in m.mapAddr :: m.mapAddr[ip] in m.mapInfo && m.mapInfo[m.mapAddr[ip]].addr.ip == ip)
  }

  lemma ValidIff(m: AddrMan)
    ensures m.Valid() && Timed(m.mapInfo) && m.nKey != 0 <==> Passes(m) && Beyond(m)
  {
    ValidPasses(m);
    if Passes(m) && Beyond(m) {
      hide TriedOk, NewOk;
      forall id | id in m.mapInfo ensures EntryOk(id, m.mapInfo[id], m.mapAddr, m.vRandom) { }
      Onto(m.mapInfo, m.vRandom, m.nTried, m.nNew);
    }
  }

  /** As many places as entries, and each entry has one: so every place is taken. */
  lemma Onto(infos: Infos, random: seq<int>, nTried: int, nNew: int)
    requires |random| == nTried + nNew && nTried == |TriedIds(infos)| && nNew == |NewIds(infos)|
    requires forall id | id in infos :: 0 <= infos[id].nRandomPos < |random| && random[infos[id].nRandomPos] == id
    ensures Shuffled(infos, random)
  {
    Partition(infos);
    var places := Places(|random|);
    var taken := Taken(infos, infos.Keys);
    TakenSize(infos, infos.Keys, random);
    assert taken <= places;
    SameSize(taken, places);
    forall i | 0 <= i < |random| ensures random[i] in infos && infos[random[i]].nRandomPos == i {
      assert i in places;
      var id :| id in infos.Keys && infos[id].nRandomPos == i;
    }
  }

  ghost function Taken(infos: Infos, ids: set<int>): set<int>
    requires ids <= infos.Keys
  {
    set id | id in ids :: infos[id].nRandomPos
  }

  lemma {:induction false} TakenSize(infos: Infos, ids: set<int>, random: seq<int>)
    requires ids <= infos.Keys
    requires forall id | id in infos :: 0 <= infos[id].nRandomPos < |random| && random[infos[id].nRandomPos] == id
    ensures |Taken(infos, ids)| == |ids|
    decreases |ids|
  {
    if ids != {} {
      var id := AnyOf(ids);
      TakenSize(infos, ids - {id}, random);
      assert Taken(infos, ids) == Taken(infos, ids - {id}) + {infos[id].nRandomPos};
    } else {
      assert Taken(infos, ids) == {};
    }
  }

  ghost function Places(n: nat): (s: set<int>)
    ensures |s| == n && forall i :: i in s <==> 0 <= i < n
  {
    if n == 0 then {} else Places(n - 1) + {n - 1}
  }

  /** After any run of the address manager the check returns 0, unless the key drawn at the start was null or a time
      that was passed in was not positive. */
  method RunAndCheck(m: AddrMan, ops: seq<Op>) returns (code: int)
    requires m.Valid() && Timed(m.mapInfo) && PositiveTimes(ops)
    modifies m
    ensures code == if old(m.nKey) == 0 then -16 else 0
  {
    m.Run(ops);
    NewBuckets(m);
    code := Check(m);
  }

  lemma NewBuckets(m: AddrMan)
    requires m.Valid()
    ensures forall s | s in m.vvNew :: s.0 < NEW_BUCKET_COUNT
  {
  }
}
