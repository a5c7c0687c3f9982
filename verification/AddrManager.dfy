/** CAddrMan, the address manager (src/addrman.cpp). */
module AddrManager {
  import opened AddrTables
  import Bits

  /** Whether the statistics of an entry are bad enough to drop it. */
  predicate IsTerrible(info: AddrInfo, now: int) {
    if info.nLastTry != 0 && info.nLastTry >= now - 60 then false
    else if info.nTime > now + 10 * 60 then true
    else if info.nTime == 0 || now - info.nTime > 30 * 24 * 60 * 60 then true
    else if info.nLastSuccess == 0 && info.nAttempts >= 3 then true
    else now - info.nLastSuccess > 7 * 24 * 60 * 60 && info.nAttempts >= 10
  }

  /** What callers may do, with the times they pass and the clock. */
  datatype Op =
    | AddOp(addr: Service, services: nat, seen: nat, source: NetAddr, penalty: int, routable: bool, now: int)
    | GoodOp(addr: Service, time: int)
    | AttemptOp(addr: Service, countFailure: bool, time: int)
    | ConnectedOp(addr: Service, time: int)
    | SetServicesOp(addr: Service, services: nat)
    | GetAddrOp(now: int)

  /** What others are told of an address. */
  datatype Peer = Peer(addr: Service, nServices: nat, nTime: int)

  function PeerOf(info: AddrInfo): Peer { Peer(info.addr, info.nServices, info.nTime) }

  ghost predicate PositiveTime(op: Op) {
    match op
    case GoodOp(_, time) => time > 0
    case AttemptOp(_, _, time) => time > 0
    case _ => true
  }

  ghost predicate PositiveTimes(ops: seq<Op>) { forall i | 0 <= i < |ops| :: PositiveTime(ops[i]) }

  class AddrMan {
    const hashes: nat -> Hashing
    var nKey: nat
    var nIdCount: nat
    var mapInfo: Infos
    var mapAddr: map<NetAddr, int>
    var vRandom: seq<int>
    var nTried: int
    var vvTried: Table
    var nNew: int
    var vvNew: Table
    var nLastGood: int

    ghost function Hs(): Hashing reads this { hashes(nKey) }

    /** The indexes and the tables agree with the entries. */
    ghost predicate Linked()
      reads this
    {
      && Indexed(mapInfo, mapAddr) && Shuffled(mapInfo, vRandom)
      && TriedOk(Hs(), mapInfo, vvTried) && NewOk(Hs(), mapInfo, vvNew)
    }

    /** Consistent but for the number of new entries and the entries between two tables. */
    ghost predicate Core()
      reads this
    {
      Linked() && (forall id | id in mapInfo :: 0 <= id < nIdCount) && nTried == |TriedIds(mapInfo)|
    }

    /** What Check_ demands of the tables and the counters. */
    ghost predicate Valid()
      reads this
    {
      Core() && Referenced(mapInfo, {}) && nNew == |NewIds(mapInfo)|
    }

    constructor (hashes: nat -> Hashing, nKey: nat)
      ensures Valid() && mapInfo == map[] && Timed(mapInfo) && this.hashes == hashes && this.nKey == nKey
    {
      this.hashes := hashes;
      this.nKey := nKey;
      nIdCount, nTried, nNew, nLastGood := 0, 0, 0, 1;
      mapInfo, mapAddr, vRandom, vvTried, vvNew := map[], map[], [], map[], map[];
    }

    /** Every entry is counted once: `vRandom` is as long as the two counters say. */
    lemma Sizes()
      requires Valid()
      ensures |vRandom| == nTried + nNew == |mapInfo|
    {
      ShuffledSize(mapInfo, vRandom);
      Partition(mapInfo);
    }

    method Find(ip: NetAddr) returns (found: bool, nId: int)
      requires Indexed(mapInfo, mapAddr)
      ensures found <==> ip in mapAddr
      ensures found ==> nId == mapAddr[ip] && nId in mapInfo && mapInfo[nId].addr.ip == ip
    {
      found := ip in mapAddr;
      nId := if found then mapAddr[ip] else 0;
    }

    method Create(addr: Service, nServices: nat, nTime: int, source: NetAddr) returns (nId: int)
      requires Core() && addr.ip !in mapAddr && Referenced(mapInfo, {})
      modifies `nIdCount, `mapInfo, `mapAddr, `vRandom
      ensures Core() && nId == old(nIdCount) && nId !in old(mapInfo)
      ensures mapInfo
           == old(mapInfo)[nId := AddrInfo(addr, nServices, nTime, source, 0, 0, 0, 0, 0, false, |old(vRandom)|)]
      ensures mapAddr == old(mapAddr)[addr.ip := nId]
      ensures NewIds(mapInfo) == old(NewIds(mapInfo)) + {nId}
      ensures Referenced(mapInfo, {nId})
    {
      nId := nIdCount;
      var info := AddrInfo(addr, nServices, nTime, source, 0, 0, 0, 0, 0, false, |vRandom|);
      hide Indexed, Shuffled, TriedOk, NewOk, TriedIds, NewIds, Referenced;
      Created(mapInfo, mapAddr, vRandom, nId, info);
      CreatedTables(Hs(), mapInfo, vvTried, vvNew, nId, info, {});
      assert {} + {nId} == {nId};
      nIdCount := nIdCount + 1;
      mapInfo := mapInfo[nId := info];
      mapAddr := mapAddr[addr.ip := nId];
      vRandom := vRandom + [nId];
    }

    /** Exchanges two places of `vRandom`; the assertions of the source hold. */
    method SwapRandom(nRndPos1: nat, nRndPos2: nat)
      requires Shuffled(mapInfo, vRandom)
      requires nRndPos1 != nRndPos2 ==> nRndPos1 < |vRandom| && nRndPos2 < |vRandom|
      modifies `mapInfo, `vRandom
      ensures Shuffled(mapInfo, vRandom) && Alike(old(mapInfo), mapInfo) && KeptBut(old(mapInfo), mapInfo, {})
      ensures vRandom == if nRndPos1 == nRndPos2 then old(vRandom)
        else old(vRandom)[nRndPos1 := old(vRandom)[nRndPos2]][nRndPos2 := old(vRandom)[nRndPos1]]
    {
      if nRndPos1 == nRndPos2 { return; }
      Swapped(mapInfo, vRandom, nRndPos1, nRndPos2);
      var nId1, nId2 := vRandom[nRndPos1], vRandom[nRndPos2];
      assert nId1 in mapInfo && nId2 in mapInfo;
      mapInfo := mapInfo[nId1 := mapInfo[nId1].(nRandomPos := nRndPos2)];
      mapInfo := mapInfo[nId2 := mapInfo[nId2].(nRandomPos := nRndPos1)];
      vRandom := vRandom[nRndPos1 := nId2];
      vRandom := vRandom[nRndPos2 := nId1];
    }

    /** Forgets an entry that is in no table. */
    method Delete(nId: int, ghost limbo: set<int>)
      requires Core() && nId in mapInfo && !mapInfo[nId].fInTried && mapInfo[nId].nRefCount == 0
      requires Referenced(mapInfo, limbo)
      modifies `mapInfo, `mapAddr, `vRandom, `nNew
      ensures Core() && nId !in mapInfo && KeptBut(old(mapInfo), mapInfo, {nId})
      ensures mapAddr == old(mapAddr - {mapInfo[nId].addr.ip})
      ensures nNew == old(nNew) - 1 && NewIds(mapInfo) == old(NewIds(mapInfo)) - {nId}
      ensures Referenced(mapInfo, limbo - {nId})
    {
      hide Indexed, Shuffled, TriedOk, NewOk, TriedIds, NewIds, Referenced, Alike, KeptBut;
      ghost var was := mapInfo;
      PositionOf(mapInfo, vRandom, nId);
      SwapRandom(mapInfo[nId].nRandomPos, |vRandom| - 1);
      EntryAt(mapInfo, vRandom, |vRandom| - 1);
      AlikeEntry(was, mapInfo, nId);
      Deleted(Hs(), was, mapInfo, mapAddr, vRandom, vvTried, vvNew, nId, limbo);
      vRandom := vRandom[..|vRandom| - 1];
      mapAddr := mapAddr - {mapInfo[nId].addr.ip};
      mapInfo := mapInfo - {nId};
      nNew := nNew - 1;
    }
  
    /** Empties a slot of the new table, forgetting its entry when that was its last reference. */
    method ClearNew(slot: Slot, ghost limbo: set<int>) returns (ghost displaced: set<int>)
      requires Core() && Referenced(mapInfo, limbo)
      modifies `mapInfo, `mapAddr, `vRandom, `nNew, `vvNew
      ensures Core() && Referenced(mapInfo, limbo) && vvNew == old(vvNew) - {slot}
      ensures displaced == if slot in old(vvNew) then {old(vvNew)[slot]} else {}
      ensures KeptBut(old(mapInfo), mapInfo, displaced)
      ensures forall id | id in displaced :: id in old(mapInfo) && Dropped(old(mapInfo)[id], id, mapInfo)
      ensures Inherits(old(mapInfo), mapInfo)
      ensures nNew - |NewIds(mapInfo)| == old(nNew - |NewIds(mapInfo)|)
    {
      displaced := {};
      if slot in vvNew {
        displaced := {vvNew[slot]};
        Release(slot, limbo);
        InheritsBut(old(mapInfo), mapInfo, displaced);
      } else {
        assert vvNew == vvNew - {slot};
      }
    }

    method Release(slot: Slot, ghost limbo: set<int>)
      requires Core() && Referenced(mapInfo, limbo) && slot in vvNew
      modifies `mapInfo, `mapAddr, `vRandom, `nNew, `vvNew
      ensures Core() && Referenced(mapInfo, limbo) && vvNew == old(vvNew) - {slot}
      ensures KeptBut(old(mapInfo), mapInfo, {old(vvNew)[slot]})
      ensures old(vvNew)[slot] in old(mapInfo) && Dropped(old(mapInfo)[old(vvNew)[slot]], old(vvNew)[slot], mapInfo)
      ensures nNew - |NewIds(mapInfo)| == old(nNew - |NewIds(mapInfo)|)
    {
      hide Indexed, Shuffled, TriedOk, NewOk, TriedIds, NewIds, Referenced, KeptBut;
      var nIdDelete := vvNew[slot];
      ghost var was, hs := mapInfo, Hs();
      NewEntry(hs, mapInfo, vvNew, slot);
      var info := mapInfo[nIdDelete];
      info := info.(nRefCount := info.nRefCount - 1);
      Cleared(hs, mapInfo, vvNew, slot);
      Pinned(mapInfo, nIdDelete, info, mapAddr, vRandom);
      Recounted(hs, mapInfo, vvTried, nIdDelete, info.nRefCount);
      Lowered(mapInfo, nIdDelete, limbo, info.nRefCount);
      UpdatedOne(mapInfo, nIdDelete, info);
      mapInfo := mapInfo[nIdDelete := info];
      vvNew := vvNew - {slot};
      if info.nRefCount == 0 {
        ghost var mid := mapInfo;
        Delete(nIdDelete, limbo + {nIdDelete});
        KeptTwice(was, mid, mapInfo, {nIdDelete}, {nIdDelete});
        assert {nIdDelete} + {nIdDelete} == {nIdDelete};
        ReferencedMore(mapInfo, limbo + {nIdDelete} - {nIdDelete}, limbo);
      }
    }

    /** The entry is out of the first buckets, and nothing else has changed. */
    ghost predicate Unlinking(nId: int, was: Table, infos: Infos, bucket: nat)
      reads this
    {
      && Core() && Referenced(mapInfo, {nId}) && Unlinked(was, vvNew, nId, bucket)
      && nId in infos && nId in mapInfo && mapInfo == infos[nId := infos[nId].(nRefCount := mapInfo[nId].nRefCount)]
      && TriedIds(mapInfo) == TriedIds(infos) && NewIds(mapInfo) == NewIds(infos)
    }

    /** Takes an entry out of every new bucket. */
    method Unlink(nId: int)
      requires Core() && nId in mapInfo && !mapInfo[nId].fInTried && Referenced(mapInfo, {})
      modifies `mapInfo, `vvNew
      ensures Core() && Referenced(mapInfo, {nId}) && vvNew == old(vvNew - Slots(vvNew, nId))
      ensures mapInfo == old(mapInfo[nId := mapInfo[nId].(nRefCount := 0)]) && Inherits(old(mapInfo), mapInfo)
      ensures TriedIds(mapInfo) == old(TriedIds(mapInfo)) && NewIds(mapInfo) == old(NewIds(mapInfo))
      ensures nId in NewIds(mapInfo)
    {
      ghost var was, infos, hs := vvNew, mapInfo, Hs();
      UnlinkedStart(vvNew, nId);
      ReferencedMore(mapInfo, {}, {nId});
      assert nId in NewIds(infos) && Unlinking(nId, was, infos, 0);
      hide *;
      for bucket := 0 to NEW_BUCKET_COUNT
        invariant Unlinking(nId, was, infos, bucket) && Hs() == hs
      {
        UnlinkBucket(nId, bucket, was, infos);
      }
      UnlinkedAll(hs, infos, was, vvNew, nId);
      Unreferenced(hs, mapInfo, vvNew, nId);
    }

    method UnlinkBucket(nId: int, bucket: nat, ghost was: Table, ghost infos: Infos)
      requires Unlinking(nId, was, infos, bucket) && NewOk(Hs(), infos, was)
      modifies `mapInfo, `vvNew
      ensures Unlinking(nId, was, infos, bucket + 1)
    {
      hide Indexed, Shuffled, TriedOk, NewOk, TriedIds, NewIds, Referenced, Slots, NewSlot, Unlinked;
      var slot := NewSlot(hashes(nKey), mapInfo[nId].addr, bucket);
      UnlinkedNext(Hs(), infos, was, vvNew, nId, bucket);
      if slot in vvNew && vvNew[slot] == nId {
        UnlinkStep(slot, nId);
      }
    }

    method UnlinkStep(slot: Slot, nId: int)
      requires Core() && slot in vvNew && vvNew[slot] == nId && Referenced(mapInfo, {nId})
      modifies `mapInfo, `vvNew
      ensures Core() && Referenced(mapInfo, {nId}) && vvNew == old(vvNew) - {slot} && nId in mapInfo
      ensures nId in old(mapInfo)
      ensures mapInfo == old(mapInfo[nId := mapInfo[nId].(nRefCount := mapInfo[nId].nRefCount - 1)])
      ensures TriedIds(mapInfo) == old(TriedIds(mapInfo)) && NewIds(mapInfo) == old(NewIds(mapInfo))
    {
      hide Indexed, Shuffled, TriedOk, NewOk, TriedIds, NewIds, Referenced;
      ghost var hs := Hs();
      NewEntry(hs, mapInfo, vvNew, slot);
      var info := mapInfo[nId];
      info := info.(nRefCount := info.nRefCount - 1);
      Cleared(hs, mapInfo, vvNew, slot);
      Pinned(mapInfo, nId, info, mapAddr, vRandom);
      Recounted(hs, mapInfo, vvTried, nId, info.nRefCount);
      Lowered(mapInfo, nId, {nId}, info.nRefCount);
      assert {nId} + {nId} == {nId};
      mapInfo := mapInfo[nId := info];
      vvNew := vvNew - {slot};
    }

    /** Takes the entry at a slot of the tried table out of it. */
    method TakeOut(slot: Slot, ghost limbo: set<int>) returns (nIdEvict: int)
      requires Core() && Referenced(mapInfo, limbo) && slot in vvTried
      modifies `mapInfo, `vvTried, `nTried
      ensures Core() && Referenced(mapInfo, limbo + {nIdEvict})
      ensures vvTried == old(vvTried) - {slot} && nIdEvict == old(vvTried)[slot]
      ensures nIdEvict in old(mapInfo) && old(mapInfo)[nIdEvict].fInTried
      ensures mapInfo == old(mapInfo[vvTried[slot] := mapInfo[vvTried[slot]].(fInTried := false)])
      ensures Inherits(old(mapInfo), mapInfo)
      ensures mapInfo[nIdEvict].nRefCount == 0 && |NewIds(mapInfo)| == old(|NewIds(mapInfo)|) + 1
    {
      hide Indexed, Shuffled, TriedOk, NewOk, TriedIds, NewIds, Referenced;
      ghost var hs := Hs();
      nIdEvict := vvTried[slot];
      TriedEntry(hs, mapInfo, vvTried, slot);
      var info := mapInfo[nIdEvict].(fInTried := false);
      Evicted(hs, mapInfo, vvTried, vvNew, slot, limbo);
      Pinned(mapInfo, nIdEvict, info, mapAddr, vRandom);
      mapInfo := mapInfo[nIdEvict := info];
      vvTried := vvTried - {slot};
      nTried := nTried - 1;
    }

    /** Puts an entry into a slot of the new table, whatever else is there. */
    method PutInto(slot: Slot, nId: int, ghost limbo: set<int>) returns (ghost displaced: set<int>)
      requires Core() && Referenced(mapInfo, limbo) && nId in mapInfo && !mapInfo[nId].fInTried
      requires mapInfo[nId].nRefCount < NEW_BUCKETS_PER_ADDRESS && (slot in vvNew ==> vvNew[slot] != nId)
      requires slot.0 < NEW_BUCKET_COUNT && slot == NewSlot(Hs(), mapInfo[nId].addr, slot.0)
      modifies `mapInfo, `mapAddr, `vRandom, `nNew, `vvNew
      ensures Core() && Referenced(mapInfo, limbo - {nId}) && vvNew == old(vvNew)[slot := nId]
      ensures displaced == Occupant(old(vvNew), slot) && nId !in displaced
      ensures KeptBut(old(mapInfo), mapInfo, displaced + {nId}) && Inherits(old(mapInfo), mapInfo)
      ensures forall id | id in displaced :: id in old(mapInfo) && Dropped(old(mapInfo)[id], id, mapInfo)
      ensures nId in mapInfo && MovedTo(old(mapInfo)[nId], mapInfo[nId], old(mapInfo)[nId].nRefCount + 1, false)
      ensures nNew - |NewIds(mapInfo)| == old(nNew - |NewIds(mapInfo)|)
    {
      hide Indexed, Shuffled, TriedOk, NewOk, TriedIds, NewIds, Referenced, KeptBut, NewSlot, Inherits;
      ghost var was, hs := mapInfo, Hs();
      displaced := ClearNew(slot, limbo);
      KeptEntry(was, mapInfo, displaced, nId);
      ghost var mid := mapInfo;
      var info := mapInfo[nId].(nRefCount := mapInfo[nId].nRefCount + 1);
      Counted(hs, mapInfo, vvNew, nId);
      Filled(hs, mapInfo, vvNew, slot, nId);
      Pinned(mapInfo, nId, info, mapAddr, vRandom);
      Recounted(hs, mapInfo, vvTried, nId, info.nRefCount);
      Raised(mapInfo, nId, limbo);
      UpdatedOne(mapInfo, nId, info);
      mapInfo := mapInfo[nId := info];
      vvNew := vvNew[slot := nId];
      KeptTwice(was, mid, mapInfo, displaced, {nId});
      InheritsBut(mid, mapInfo, {nId});
      InheritsTwice(was, mid, mapInfo);
    }

    /** Enters an entry that is in no table, and not counted, into the tried table. */
    method Promote(nId: int)
      requires Core() && Referenced(mapInfo, {nId}) && nNew == |NewIds(mapInfo)| - 1
      requires nId in mapInfo && !mapInfo[nId].fInTried && mapInfo[nId].nRefCount == 0
      requires TriedSlot(Hs(), mapInfo[nId].addr) !in vvTried
      modifies `mapInfo, `vvTried, `nTried
      ensures Valid() && vvTried == old(vvTried[TriedSlot(Hs(), mapInfo[nId].addr) := nId])
      ensures mapInfo == old(mapInfo[nId := mapInfo[nId].(fInTried := true)]) && Inherits(old(mapInfo), mapInfo)
    {
      hide Indexed, Shuffled, TriedOk, NewOk, TriedIds, NewIds, Referenced, TriedSlot;
      ghost var hs := Hs();
      var info := mapInfo[nId].(fInTried := true);
      IdIn(mapInfo, nId);
      Promoted(hs, mapInfo, vvTried, vvNew, nId, {nId});
      assert {nId} - {nId} == {};
      Pinned(mapInfo, nId, info, mapAddr, vRandom);
      vvTried := vvTried[TriedSlot(hashes(nKey), info.addr) := nId];
      nTried := nTried + 1;
      mapInfo := mapInfo[nId := info];
    }

    /** Moves an entry from the new table to the tried table. What was at its place there goes back to the new
        table, where it takes the place of what was there. */
    method MakeTried(nId: int)
      requires Valid() && nId in mapInfo && !mapInfo[nId].fInTried
      modifies `mapInfo, `mapAddr, `vRandom, `nNew, `vvNew, `vvTried, `nTried
      ensures Valid()
      ensures vvTried == old(vvTried[TriedSlot(Hs(), mapInfo[nId].addr) := nId])
      ensures nId in mapInfo && MovedTo(old(mapInfo[nId]), mapInfo[nId], 0, true)
      ensures var s := old(TriedSlot(Hs(), mapInfo[nId].addr)); var left := old(vvNew - Slots(vvNew, nId));
        if s !in old(vvTried) then vvNew == left
        else var id := old(vvTried)[s];
          && id in old(mapInfo) && id in mapInfo && MovedTo(old(mapInfo)[id], mapInfo[id], 1, false)
          && vvNew == left[HomeSlot(old(Hs()), old(mapInfo)[id]) := id]
      ensures KeptBut(old(mapInfo), mapInfo, old(Involved(Hs(), mapInfo, vvTried, vvNew, nId)))
      ensures Inherits(old(mapInfo), mapInfo)
    {
      hide Indexed, Shuffled, TriedOk, NewOk, TriedIds, NewIds, Referenced, KeptBut, Slots, TriedSlot, HomeSlot;
      hide Inherits;
      ghost var was, hs := mapInfo, Hs();
      ghost var changed := Involved(hs, was, vvTried, vvNew, nId);
      Unlink(nId);
      UpdatedOne(was, nId, mapInfo[nId]);
      ghost var mid := mapInfo;
      nNew := nNew - 1;
      var slot := TriedSlot(hashes(nKey), mapInfo[nId].addr);
      ghost var others := Vacate(slot, nId);
      assert {nId} + others == changed;
      KeptTwice(was, mid, mapInfo, {nId}, others);
      InheritsTwice(was, mid, mapInfo);
      ghost var end := mapInfo;
      Promote(nId);
      UpdatedOne(end, nId, mapInfo[nId]);
      KeptTwice(was, end, mapInfo, changed, {nId});
      InheritsTwice(was, end, mapInfo);
      assert changed + {nId} == changed;
    }

    /** Empties a slot of the tried table. */
    method Vacate(slot: Slot, nId: int) returns (ghost others: set<int>)
      requires Core() && Referenced(mapInfo, {nId}) && nNew == |NewIds(mapInfo)| - 1
      requires nId in mapInfo && !mapInfo[nId].fInTried && mapInfo[nId].nRefCount == 0
      modifies `mapInfo, `mapAddr, `vRandom, `nNew, `vvNew, `vvTried, `nTried
      ensures Core() && Referenced(mapInfo, {nId}) && nNew == |NewIds(mapInfo)| - 1 && vvTried == old(vvTried) - {slot}
      ensures slot !in old(vvTried) ==> vvNew == old(vvNew) && others == {}
      ensures slot in old(vvTried) ==> old(vvTried)[slot] in old(mapInfo) && old(mapInfo)[old(vvTried)[slot]].fInTried
      ensures slot in old(vvTried) ==>
        var id := old(vvTried)[slot]; var s := HomeSlot(old(Hs()), old(mapInfo)[id]);
        && id in mapInfo && MovedTo(old(mapInfo)[id], mapInfo[id], 1, false) && vvNew == old(vvNew)[s := id]
        && others == {id} + Occupant(old(vvNew), s)
      ensures KeptBut(old(mapInfo), mapInfo, others) && Inherits(old(mapInfo), mapInfo)
      ensures nId in mapInfo && SameButPosition(old(mapInfo)[nId], mapInfo[nId])
    {
      hide Indexed, Shuffled, TriedOk, NewOk, TriedIds, NewIds, Referenced, KeptBut, HomeSlot, Inherits;
      others := {};
      KeptAll(mapInfo, others);
      if slot in vvTried {
        TriedEntry(Hs(), mapInfo, vvTried, slot);
        others := {vvTried[slot]} + Occupant(vvNew, HomeSlot(Hs(), mapInfo[vvTried[slot]]));
        MakeRoom(slot, nId);
      } else {
        assert vvTried == vvTried - {slot};
      }
    }

    method MakeRoom(slot: Slot, nId: int)
      requires Core() && Referenced(mapInfo, {nId}) && nNew == |NewIds(mapInfo)| - 1 && slot in vvTried
      requires nId in mapInfo && !mapInfo[nId].fInTried && mapInfo[nId].nRefCount == 0
      modifies `mapInfo, `mapAddr, `vRandom, `nNew, `vvNew, `vvTried, `nTried
      ensures Core() && Referenced(mapInfo, {nId}) && nNew == |NewIds(mapInfo)| - 1 && vvTried == old(vvTried) - {slot}
      ensures old(vvTried)[slot] in old(mapInfo)
      ensures var id := old(vvTried)[slot]; var s := HomeSlot(old(Hs()), old(mapInfo)[id]);
        && id in mapInfo && MovedTo(old(mapInfo)[id], mapInfo[id], 1, false) && vvNew == old(vvNew)[s := id]
        && KeptBut(old(mapInfo), mapInfo, {id} + Occupant(old(vvNew), s))
      ensures nId in mapInfo && SameButPosition(old(mapInfo)[nId], mapInfo[nId]) && Inherits(old(mapInfo), mapInfo)
    {
      hide Indexed, Shuffled, TriedOk, NewOk, TriedIds, NewIds, Referenced, KeptBut, Inherits;
      ghost var was := mapInfo;
      var nIdEvict := TakeOut(slot, {nId});
      UpdatedOne(was, nIdEvict, mapInfo[nIdEvict]);
      ghost var mid := mapInfo;
      ghost var limbo := {nId} + {nIdEvict};
      var uSlot := HomeSlot(hashes(nKey), mapInfo[nIdEvict]);
      if uSlot in vvNew { NewEntry(Hs(), mapInfo, vvNew, uSlot); }
      Counted(Hs(), mapInfo, vvNew, nIdEvict);
      ghost var displaced := PutInto(uSlot, nIdEvict, limbo);
      nNew := nNew + 1;
      assert limbo - {nIdEvict} == {nId};
      KeptTwice(was, mid, mapInfo, {nIdEvict}, displaced + {nIdEvict});
      InheritsTwice(was, mid, mapInfo);
      assert {nIdEvict} + (displaced + {nIdEvict}) == {nIdEvict} + displaced;
      KeptEntry(was, mapInfo, {nIdEvict} + displaced, nId);
    }

    /** Rewrites what an entry says of its address. */
    method Touch(nId: int, info: AddrInfo)
      requires Core() && nId in mapInfo && AlikeAt(mapInfo[nId], info) && info.nRandomPos == mapInfo[nId].nRandomPos
      modifies `mapInfo
      ensures Core() && mapInfo == old(mapInfo)[nId := info]
      ensures NewIds(mapInfo) == old(NewIds(mapInfo))
      ensures old(Referenced(mapInfo, {})) ==> Referenced(mapInfo, {})
      ensures old(Referenced(mapInfo, {nId})) ==> Referenced(mapInfo, {nId})
    {
      ghost var was := mapInfo;
      assert Alike(was, mapInfo[nId := info]);
      hide Indexed, Shuffled, TriedOk, NewOk, TriedIds, NewIds, Referenced, Alike;
      Pinned(mapInfo, nId, info, mapAddr, vRandom);
      AlikeTables(Hs(), was, was[nId := info], mapAddr, vvTried, vvNew);
      AlikeCounts(was, was[nId := info], {});
      AlikeCounts(was, was[nId := info], {nId});
      mapInfo := mapInfo[nId := info];
    }

    /** The entry for exactly this address and port. */
    ghost predicate Knows(addr: Service)
      reads this
    {
      addr.ip in mapAddr && mapAddr[addr.ip] in mapInfo && mapInfo[mapAddr[addr.ip]].addr == addr
    }

    /** Notes a successful connection. A known address ends up in the tried table: there always is a new bucket
        to move it from. */
    method Good(addr: Service, nTime: int)
      requires Valid()
      modifies `mapInfo, `mapAddr, `vRandom, `nNew, `vvNew, `vvTried, `nTried, `nLastGood
      ensures Valid() && nLastGood == nTime
      ensures !old(Knows(addr)) ==> mapInfo == old(mapInfo) && vvNew == old(vvNew) && vvTried == old(vvTried)
      ensures old(Knows(addr)) ==>
        && Knows(addr) && mapAddr[addr.ip] == old(mapAddr)[addr.ip]
        && Succeeded(nTime, mapAddr[addr.ip], old(mapInfo), old(vvTried), old(vvNew))
      ensures old(Timed(mapInfo)) ==> (Timed(mapInfo) <==> !old(Knows(addr)) || nTime > 0)
    {
      nLastGood := nTime;
      var found, nId := Find(addr.ip);
      if !found || mapInfo[nId].addr != addr { return; }
      Renew(nId, nTime);
      StillKnown(addr, nId);
    }

    lemma StillKnown(addr: Service, nId: int)
      requires Indexed(mapInfo, mapAddr) && nId in mapInfo && mapInfo[nId].addr == addr
      ensures Knows(addr) && mapAddr[addr.ip] == nId
    {
    }

    /** After a success: the entry is tried and its statistics are new, and only the entries in its way changed. */
    ghost predicate Succeeded(nTime: int, id: int, infos: Infos, tried: Table, news: Table)
      reads this
    {
      && id in infos && id in mapInfo
      && MovedTo(infos[id].(nLastSuccess := nTime, nLastTry := nTime, nAttempts := 0), mapInfo[id], 0, true)
      && vvTried == tried[TriedSlot(Hs(), infos[id].addr) := id]
      && KeptBut(infos, mapInfo, if infos[id].fInTried then {id} else Involved(Hs(), infos, tried, news, id))
    }

    method Renew(nId: int, nTime: int)
      requires Valid() && nId in mapInfo
      modifies `mapInfo, `mapAddr, `vRandom, `nNew, `vvNew, `vvTried, `nTried
      ensures Valid() && Succeeded(nTime, nId, old(mapInfo), old(vvTried), old(vvNew))
      ensures old(Timed(mapInfo)) ==> (Timed(mapInfo) <==> nTime > 0)
    {
      hide Indexed, Shuffled, TriedOk, NewOk, TriedIds, NewIds, Referenced, KeptBut, Slots, TriedSlot, HomeSlot;
      hide Inherits, Timed;
      ghost var was, hs, tried := mapInfo, Hs(), vvTried;
      var info := mapInfo[nId].(nLastSuccess := nTime, nLastTry := nTime, nAttempts := 0);
      UpdatedOne(was, nId, info);
      Touch(nId, info);
      ghost var mid := mapInfo;
      if mapInfo[nId].fInTried {
        TriedTwice(hs, was, vvTried, vvNew, nId);
        if Timed(was) { RetimedSelf(was, nId, info); }
        return;
      }
      var nUBucket := FindBucket(nId);
      assert nUBucket != -1;
      ghost var changed := Involved(hs, mid, vvTried, vvNew, nId);
      MakeTried(nId);
      KeptTwice(was, mid, mapInfo, {nId}, changed);
      assert {nId} + changed == changed;
      if Timed(was) { Retimed(hs, was, mid, mapInfo, tried, vvTried, nId, nTime); }
    }

    /** Searches the new buckets for an entry from a random one on. */
    method FindBucket(nId: int) returns (nUBucket: int)
      requires Valid() && nId in mapInfo && !mapInfo[nId].fInTried
      ensures 0 <= nUBucket < NEW_BUCKET_COUNT
      ensures var s := NewSlot(Hs(), mapInfo[nId].addr, nUBucket); s in vvNew && vvNew[s] == nId
    {
      ghost var home := SomeSlot(Hs(), mapInfo, vvNew, nId);
      hide Indexed, Shuffled, TriedOk, NewOk, TriedIds, NewIds, Referenced;
      var nRnd: nat :| nRnd < NEW_BUCKET_COUNT;
      ghost var last := (home + NEW_BUCKET_COUNT - nRnd) % NEW_BUCKET_COUNT;
      assert (last + nRnd) % NEW_BUCKET_COUNT == home;
      nUBucket := -1;
      var n := 0;
      while n < NEW_BUCKET_COUNT && nUBucket == -1
        invariant 0 <= n && (nUBucket == -1 ==> n <= last)
        invariant nUBucket != -1 ==>
          && 0 <= nUBucket < NEW_BUCKET_COUNT
          && var s := NewSlot(Hs(), mapInfo[nId].addr, nUBucket); s in vvNew && vvNew[s] == nId
      {
        var nB := (n + nRnd) % NEW_BUCKET_COUNT;
        var slot := NewSlot(hashes(nKey), mapInfo[nId].addr, nB);
        if slot in vvNew && vvNew[slot] == nId {
          nUBucket := nB;
        }
        n := n + 1;
      }
    }

    /** Enters an entry into the bucket its address and a source choose, if the slot there is free or its entry may
        be dropped; an entry that is then in no bucket is forgotten. */
    method Place(nId: int, source: NetAddr, now: int) returns (fInsert: bool)
      requires Core() && nId in mapInfo && !mapInfo[nId].fInTried && nNew == |NewIds(mapInfo)|
      requires Referenced(mapInfo, if mapInfo[nId].nRefCount == 0 then {nId} else {})
      requires mapInfo[nId].nRefCount < NEW_BUCKETS_PER_ADDRESS
      modifies `mapInfo, `mapAddr, `vRandom, `nNew, `vvNew
      ensures Valid() && Inherits(old(mapInfo), mapInfo)
      ensures fInsert <==> old(MayEnter(nId, PlaceFor(nId, source), now))
      ensures vvNew == if fInsert then old(vvNew[PlaceFor(nId, source) := nId]) else old(vvNew)
      ensures KeptBut(old(mapInfo), mapInfo,
                      {nId} + if fInsert then old(Occupant(vvNew, PlaceFor(nId, source))) else {})
      ensures nId in mapInfo <==> fInsert || old(mapInfo[nId].nRefCount) > 0
    {
      hide Indexed, Shuffled, TriedOk, NewOk, TriedIds, NewIds, Referenced, KeptBut, Inherits, IsTerrible;
      ghost var was, hs := mapInfo, Hs();
      ghost var limbo := if mapInfo[nId].nRefCount == 0 then {nId} else {};
      var slot := PlaceFor(nId, source);
      fInsert := MayEnter(nId, slot, now);
      Counted(hs, mapInfo, vvNew, nId);
      IdIn(mapInfo, nId);
      if fInsert {
        ghost var displaced := PutInto(slot, nId, limbo);
        assert limbo - {nId} == {};
        assert displaced + {nId} == {nId} + displaced;
      } else {
        GiveUp(nId);
        assert {nId} + {} == {nId};
      }
    }

    /** Forgets an entry unless it is in some bucket. */
    method GiveUp(nId: int)
      requires Core() && nId in mapInfo && !mapInfo[nId].fInTried && nNew == |NewIds(mapInfo)|
      requires Referenced(mapInfo, if mapInfo[nId].nRefCount == 0 then {nId} else {}) && mapInfo[nId].nRefCount >= 0
      modifies `mapInfo, `mapAddr, `vRandom, `nNew
      ensures Valid() && Inherits(old(mapInfo), mapInfo) && KeptBut(old(mapInfo), mapInfo, {nId})
      ensures nId in mapInfo <==> old(mapInfo[nId].nRefCount) > 0
    {
      hide Indexed, Shuffled, TriedOk, NewOk, TriedIds, NewIds, Referenced, KeptBut, Inherits;
      ghost var was := mapInfo;
      IdIn(mapInfo, nId);
      if mapInfo[nId].nRefCount == 0 {
        Delete(nId, {nId});
        InheritsBut(was, mapInfo, {nId});
        assert {nId} - {nId} == {};
      } else {
        KeptAll(mapInfo, {nId});
      }
    }

    function PlaceFor(nId: int, source: NetAddr): Slot
      requires nId in mapInfo
      reads this
    {
      NewSlot(hashes(nKey), mapInfo[nId].addr, GetNewBucket(hashes(nKey), mapInfo[nId].addr, source))
    }

    predicate MayEnter(nId: int, slot: Slot, now: int)
      requires nId in mapInfo && NewOk(Hs(), mapInfo, vvNew)
      reads this
    {
      slot !in vvNew ||
      (vvNew[slot] != nId &&
       (IsTerrible(mapInfo[vvNew[slot]], now) || (mapInfo[vvNew[slot]].nRefCount > 1 && mapInfo[nId].nRefCount == 0)))
    }

    /** Learns of an address from a source. An address not known before is reported as new even when there was no
        room for it. */
    method Add(addr: Service, nServices: nat, nTime: nat, source: NetAddr, nTimePenalty: int, routable: bool, now: int)
      returns (fNew: bool)
      requires Valid()
      modifies `mapInfo, `mapAddr, `vRandom, `nNew, `vvNew, `nIdCount
      ensures Valid() && (fNew <==> routable && addr.ip !in old(mapAddr))
      ensures !routable ==> mapInfo == old(mapInfo) && vvNew == old(vvNew)
      ensures routable && addr.ip in old(mapAddr) ==>
        var penalty := if addr.ip == source then 0 else nTimePenalty; var id := old(mapAddr)[addr.ip];
        Heard(id, Refreshed(old(mapInfo)[id], nServices, nTime, penalty, now), source, nTime, now,
              old(mapInfo), old(vvNew))
      ensures fNew ==> Entered(old(nIdCount), addr, source, now, old(mapInfo), old(vvNew))
      ensures old(Timed(mapInfo)) ==> Timed(mapInfo)
    {
      if !routable { return false; }
      var penalty := if addr.ip == source then 0 else nTimePenalty;
      var found, nId := Find(addr.ip);
      if found {
        Hear(nId, nServices, nTime, source, penalty, now);
        fNew := false;
      } else {
        Enter(addr, nServices, nTime, source, penalty, now);
        fNew := true;
      }
    }

    /** A known entry after hearing of it again: refreshed, and in one more bucket or not. */
    ghost predicate Heard(id: int, info: AddrInfo, source: NetAddr, nTime: nat, now: int, infos: Infos, news: Table)
      reads this
    {
      && id in mapInfo && SameStatistics(info, mapInfo[id])
      && var s := NewSlot(Hs(), info.addr, GetNewBucket(Hs(), info.addr, source));
         || (vvNew == news && KeptBut(infos, mapInfo, {id}))
         || (vvNew == news[s := id] && KeptBut(infos, mapInfo, {id} + Occupant(news, s))
             && !info.fInTried && info.nRefCount < NEW_BUCKETS_PER_ADDRESS && (info.nTime == 0 || info.nTime < nTime))
    }

    /** An address not known before: in the slot its source chooses, unless that is taken by an entry worth keeping. */
    ghost predicate Entered(id: int, addr: Service, source: NetAddr, now: int, infos: Infos, news: Table)
      reads this
    {
      var s := NewSlot(Hs(), addr, GetNewBucket(Hs(), addr, source));
      if s !in news || (news[s] in infos && (IsTerrible(infos[news[s]], now) || infos[news[s]].nRefCount > 1)) then
        && id in mapInfo && mapInfo[id].addr == addr && mapInfo[id].source == source && vvNew == news[s := id]
        && KeptBut(infos, mapInfo, {id} + Occupant(news, s))
      else
        id !in mapInfo && vvNew == news && KeptBut(infos, mapInfo, {})
    }

    method Hear(nId: int, nServices: nat, nTime: nat, source: NetAddr, penalty: int, now: int)
      requires Valid() && nId in mapInfo
      modifies `mapInfo, `mapAddr, `vRandom, `nNew, `vvNew
      ensures Valid() && (old(Timed(mapInfo)) ==> Timed(mapInfo))
      ensures Heard(nId, Refreshed(old(mapInfo)[nId], nServices, nTime, penalty, now), source, nTime, now,
                    old(mapInfo), old(vvNew))
    {
      hide Indexed, Shuffled, TriedOk, NewOk, TriedIds, NewIds, Referenced, KeptBut, Inherits, NewSlot, Timed;
      ghost var was := mapInfo;
      var info := Refreshed(mapInfo[nId], nServices, nTime, penalty, now);
      UpdatedOne(was, nId, info);
      if Timed(was) {
        TimedAt(was, nId);
        TimedUpdate(was, nId, info);
      }
      Touch(nId, info);
      ghost var mid := mapInfo;
      if nTime == 0 || (info.nTime != 0 && nTime <= info.nTime) { return; }
      if info.fInTried { return; }
      if info.nRefCount == NEW_BUCKETS_PER_ADDRESS { return; }
      ReferencedAt(mapInfo, nId);
      var lucky := Chance(info.nRefCount);
      if !lucky { return; }
      var slot := PlaceFor(nId, source);
      ghost var news := vvNew;
      var fInsert := Place(nId, source, now);
      ghost var others := {nId} + if fInsert then Occupant(news, slot) else {};
      KeptTwice(was, mid, mapInfo, {nId}, others);
      assert {nId} + others == others && {nId} + {} == {nId};
      InheritedAt(mid, mapInfo, nId);
      if Timed(mid) { TimedStill(Hs(), mid, mapInfo, vvTried); }
    }

    method Enter(addr: Service, nServices: nat, nTime: nat, source: NetAddr, penalty: int, now: int)
      requires Valid() && addr.ip !in mapAddr
      modifies `mapInfo, `mapAddr, `vRandom, `nNew, `vvNew, `nIdCount
      ensures Valid() && (old(Timed(mapInfo)) ==> Timed(mapInfo))
      ensures Entered(old(nIdCount), addr, source, now, old(mapInfo), old(vvNew))
    {
      hide Indexed, Shuffled, TriedOk, NewOk, TriedIds, NewIds, Referenced, KeptBut, Inherits, NewSlot, Timed;
      ghost var was, news, hs := mapInfo, vvNew, Hs();
      var nId := Register(addr, nServices, nTime, source, penalty);
      ghost var mid := mapInfo;
      var slot := PlaceFor(nId, source);
      if slot in vvNew { NewEntry(hs, was, vvNew, slot); }
      var fInsert := Place(nId, source, now);
      ghost var others := {nId} + if fInsert then Occupant(news, slot) else {};
      KeptTwice(was, mid, mapInfo, {nId}, others);
      assert {nId} + others == others && {nId} + {} == {nId};
      if fInsert { InheritedAt(mid, mapInfo, nId); } else { KeptNone(was, mapInfo, nId); }
      if Timed(mid) { TimedStill(hs, mid, mapInfo, vvTried); }
    }

    method Register(addr: Service, nServices: nat, nTime: nat, source: NetAddr, penalty: int) returns (nId: int)
      requires Valid() && addr.ip !in mapAddr
      modifies `mapInfo, `mapAddr, `vRandom, `nNew, `nIdCount
      ensures Core() && Referenced(mapInfo, {nId}) && nNew == |NewIds(mapInfo)| && nId == old(nIdCount)
      ensures nId !in old(mapInfo) && nId in mapInfo && mapInfo == old(mapInfo)[nId := mapInfo[nId]]
      ensures var info := mapInfo[nId];
        info.addr == addr && info.source == source && info.nRefCount == 0 && !info.fInTried
      ensures KeptBut(old(mapInfo), mapInfo, {nId}) && (old(Timed(mapInfo)) ==> Timed(mapInfo))
    {
      hide Indexed, Shuffled, TriedOk, NewOk, TriedIds, NewIds, Referenced, KeptBut, Timed;
      ghost var was := mapInfo;
      nId := Create(addr, nServices, nTime, source);
      NotAnId(was, nId);
      var info := mapInfo[nId].(nTime := if nTime - penalty > 0 then nTime - penalty else 0);
      UpdatedOne(was, nId, info);
      if Timed(was) { TimedUpdate(was, nId, info); }
      Touch(nId, info);
      assert mapInfo == was[nId := info];
      nNew := nNew + 1;
    }

    /** One chance in 2^nRefCount. */
    method Chance(nRefCount: int) returns (lucky: bool)
      ensures nRefCount <= 0 ==> lucky
    {
      var nFactor := 1;
      for n := 0 to if nRefCount < 0 then 0 else nRefCount
        invariant nFactor == Bits.Pow2(n)
      {
        nFactor := 2 * nFactor;
      }
      var nRandom: nat :| nRandom < nFactor;
      lucky := !(nFactor > 1 && nRandom != 0);
    }

    /** Notes an attempt to connect; a failure counts once after each success of any address. */
    method Attempt(addr: Service, fCountFailure: bool, nTime: int)
      requires Valid()
      modifies `mapInfo
      ensures Valid()
      ensures mapInfo == if !old(Knows(addr)) then old(mapInfo)
        else
          var id := mapAddr[addr.ip];
          old(mapInfo)[id := Attempted(old(mapInfo)[id], fCountFailure, nTime, nLastGood)]
      ensures old(Timed(mapInfo)) ==> (Timed(mapInfo) <==> !old(Knows(addr)) || nTime >= 0)
    {
      hide Indexed, Shuffled, TriedOk, NewOk, TriedIds, NewIds, Referenced;
      var found, nId := Find(addr.ip);
      if !found || mapInfo[nId].addr != addr { return; }
      Touch(nId, Attempted(mapInfo[nId], fCountFailure, nTime, nLastGood));
      assert mapInfo[nId].nLastTry == nTime;
    }

    method Connected(addr: Service, nTime: int)
      requires Valid()
      modifies `mapInfo
      ensures Valid() && (old(Timed(mapInfo)) ==> Timed(mapInfo))
      ensures mapInfo == if !old(Knows(addr)) then old(mapInfo)
        else var id := mapAddr[addr.ip]; var info := old(mapInfo)[id];
          old(mapInfo)[id := info.(nTime := if nTime - info.nTime > 20 * 60 then nTime else info.nTime)]
    {
      hide Indexed, Shuffled, TriedOk, NewOk, TriedIds, NewIds, Referenced;
      var found, nId := Find(addr.ip);
      if !found || mapInfo[nId].addr != addr { return; }
      var info := mapInfo[nId];
      if nTime - info.nTime > 20 * 60 { Touch(nId, info.(nTime := nTime)); }
    }

    method SetServices(addr: Service, nServices: nat)
      requires Valid()
      modifies `mapInfo
      ensures Valid() && (old(Timed(mapInfo)) ==> Timed(mapInfo))
      ensures mapInfo == if !old(Knows(addr)) then old(mapInfo)
        else var id := mapAddr[addr.ip]; old(mapInfo)[id := old(mapInfo)[id].(nServices := nServices)]
    {
      hide Indexed, Shuffled, TriedOk, NewOk, TriedIds, NewIds, Referenced;
      var found, nId := Find(addr.ip);
      if !found || mapInfo[nId].addr != addr { return; }
      Touch(nId, mapInfo[nId].(nServices := nServices));
    }

    /** A random selection of addresses worth giving away, none twice; only `vRandom` is shuffled. */
    method GetAddr(now: int) returns (vAddr: seq<Peer>)
      requires Valid()
      modifies `mapInfo, `vRandom
      ensures Valid() && KeptBut(old(mapInfo), mapInfo, {})
      ensures |vAddr| <= 2500 && 100 * |vAddr| <= 23 * |vRandom| && |vRandom| == |old(vRandom)|
      ensures forall i | 0 <= i < |vAddr| ::
        && Knows(vAddr[i].addr)
        && var info := mapInfo[mapAddr[vAddr[i].addr.ip]]; PeerOf(info) == vAddr[i] && !IsTerrible(info, now)
      ensures forall i, j | 0 <= i < j < |vAddr| :: vAddr[i].addr.ip != vAddr[j].addr.ip
    {
      var nNodes := 23 * |vRandom| / 100;
      if nNodes > 2500 { nNodes := 2500; }
      vAddr := [];
      ghost var was := mapInfo;
      var n := 0;
      while n < |vRandom| && |vAddr| < nNodes
        invariant Valid() && KeptBut(was, mapInfo, {}) && |vRandom| == |old(vRandom)|
        invariant |vAddr| <= nNodes && 0 <= n <= |vRandom| && Given(mapInfo, mapAddr, vAddr, n, now)
      {
        hide *;
        vAddr := GetOne(vAddr, n, now, was);
        n := n + 1;
      }
    }

    /** Forgets the entries that are in no table. */
    method Prune()
      requires Core() && nNew == |NewIds(mapInfo)| && Referenced(mapInfo, mapInfo.Keys)
      modifies `mapInfo, `mapAddr, `vRandom, `nNew
      ensures Valid() && KeptBut(old(mapInfo), mapInfo, old(Unplaced(mapInfo)))
    {
      ghost var was, lost := mapInfo, Unplaced(mapInfo);
      for id := 0 to nIdCount
        invariant Core() && nNew == |NewIds(mapInfo)| && Referenced(mapInfo, From(mapInfo, id))
        invariant KeptBut(was, mapInfo, lost)
      {
        hide Indexed, Shuffled, TriedOk, NewOk, TriedIds, KeptBut, From;
        PruneOne(id, was, lost);
      }
    }

    method PruneOne(id: nat, ghost was: Infos, ghost lost: set<int>)
      requires Core() && nNew == |NewIds(mapInfo)| && Referenced(mapInfo, From(mapInfo, id))
      requires KeptBut(was, mapInfo, lost)
      requires lost == Unplaced(was)
      modifies `mapInfo, `mapAddr, `vRandom, `nNew
      ensures Core() && nNew == |NewIds(mapInfo)| && Referenced(mapInfo, From(mapInfo, id + 1))
      ensures KeptBut(was, mapInfo, lost)
    {
      hide Indexed, Shuffled, TriedOk, NewOk, TriedIds, NewIds, KeptBut;
      ghost var mid := mapInfo;
      if id in mapInfo { Counted(Hs(), mapInfo, vvNew, id); }
      if id in mapInfo && !mapInfo[id].fInTried && mapInfo[id].nRefCount == 0 {
        IdIn(mapInfo, id);
        UnplacedKept(was, mapInfo, id);
        Delete(id, From(mapInfo, id));
        KeptTwice(was, mid, mapInfo, lost, {id});
        assert lost + {id} == lost;
        FromNext(mapInfo, id, From(mid, id) - {id});
      }
    }

    method GetOne(given: seq<Peer>, n: nat, now: int, ghost was: Infos) returns (vAddr: seq<Peer>)
      requires Valid() && KeptBut(was, mapInfo, {}) && n < |vRandom| && Given(mapInfo, mapAddr, given, n, now)
      modifies `mapInfo, `vRandom
      ensures Valid() && KeptBut(was, mapInfo, {}) && |vRandom| == |old(vRandom)|
      ensures Given(mapInfo, mapAddr, vAddr, n + 1, now) && |given| <= |vAddr| <= |given| + 1
    {
      hide Indexed, Shuffled, TriedOk, NewOk, TriedIds, NewIds, Referenced, KeptBut, Alike, Given, IsTerrible;
      ghost var mid, random := mapInfo, vRandom;
      var nRndPos: nat :| n <= nRndPos < |vRandom|;
      SwapRandom(n, nRndPos);
      KeptTwice(was, mid, mapInfo, {}, {});
      ghost var none: set<int> := {};
      assert none + none == none;
      AlikeTables(Hs(), mid, mapInfo, mapAddr, vvTried, vvNew);
      AlikeCounts(mid, mapInfo, {});
      EntryAt(mapInfo, vRandom, n);
      GivenSwapped(mid, mapInfo, random, vRandom, mapAddr, given, n, now);
      var ai := mapInfo[vRandom[n]];
      GivenMore(mapInfo, mapAddr, given, n, now, vRandom[n]);
      vAddr := if IsTerrible(ai, now) then given else given + [PeerOf(ai)];
    }

    method Perform(op: Op)
      requires Valid()
      modifies this
      ensures Valid() && nKey == old(nKey) && (old(Timed(mapInfo)) && PositiveTime(op) ==> Timed(mapInfo))
    {
      hide Indexed, Shuffled, TriedOk, NewOk, TriedIds, NewIds, Referenced;
      match op {
        case AddOp(addr, services, seen, source, penalty, routable, now) =>
          var _ := Add(addr, services, seen, source, penalty, routable, now);
        case GoodOp(addr, time) => Good(addr, time);
        case AttemptOp(addr, countFailure, time) => Attempt(addr, countFailure, time);
        case ConnectedOp(addr, time) => Connected(addr, time);
        case SetServicesOp(addr, services) => SetServices(addr, services);
        case GetAddrOp(now) =>
          var _ := GetAddr(now);
      }
    }

    /** Whatever callers do, in any order, the consistency check holds throughout; with positive times so does its
        part about times. */
    method Run(ops: seq<Op>)
      requires Valid()
      modifies this
      ensures Valid() && nKey == old(nKey) && (old(Timed(mapInfo)) && PositiveTimes(ops) ==> Timed(mapInfo))
    {
      for i := 0 to |ops|
        invariant Valid() && nKey == old(nKey) && (old(Timed(mapInfo)) && PositiveTimes(ops) ==> Timed(mapInfo))
      {
        hide Indexed, Shuffled, TriedOk, NewOk, TriedIds, NewIds, Referenced;
        Perform(ops[i]);
      }
    }
  }

  /** The addresses are those of good entries in the first places of `vRandom`, in that order. */
  ghost predicate Given(infos: Infos, addrs: map<NetAddr, int>, vAddr: seq<Peer>, n: nat, now: int) {
    && (forall i | 0 <= i < |vAddr| :: Gave(infos, addrs, vAddr[i], n, now))
    && forall i, j | 0 <= i < j < |vAddr| :: Rank(infos, addrs, vAddr[i]) < Rank(infos, addrs, vAddr[j])
  }

  ghost predicate Gave(infos: Infos, addrs: map<NetAddr, int>, a: Peer, n: nat, now: int) {
    && a.addr.ip in addrs && addrs[a.addr.ip] in infos && PeerOf(infos[addrs[a.addr.ip]]) == a
    && infos[addrs[a.addr.ip]].nRandomPos < n && !IsTerrible(infos[addrs[a.addr.ip]], now)
  }

  ghost function Rank(infos: Infos, addrs: map<NetAddr, int>, a: Peer): int {
    if a.addr.ip in addrs && addrs[a.addr.ip] in infos then infos[addrs[a.addr.ip]].nRandomPos else -1
  }

  lemma GivenSwapped(was: Infos, infos: Infos, random: seq<int>, swapped: seq<int>, addrs: map<NetAddr, int>,
          vAddr: seq<Peer>, n: nat, now: int)
    requires Given(was, addrs, vAddr, n, now) && Shuffled(was, random) && Shuffled(infos, swapped)
    requires KeptBut(was, infos, {})
    requires |swapped| == |random| && n <= |random| && forall i | 0 <= i < n :: swapped[i] == random[i]
    ensures Given(infos, addrs, vAddr, n, now)
  {
    forall i | 0 <= i < |vAddr|
      ensures Gave(infos, addrs, vAddr[i], n, now) && Rank(infos, addrs, vAddr[i]) == Rank(was, addrs, vAddr[i])
    {
      assert Gave(was, addrs, vAddr[i], n, now);
      var id := addrs[vAddr[i].addr.ip];
      PositionOf(was, random, id);
      EntryAt(infos, swapped, was[id].nRandomPos);
      KeptEntry(was, infos, {}, id);
    }
  }

  lemma GivenMore(infos: Infos, addrs: map<NetAddr, int>, vAddr: seq<Peer>, n: nat, now: int, id: int)
    requires Given(infos, addrs, vAddr, n, now) && Indexed(infos, addrs) && id in infos && infos[id].nRandomPos == n
    ensures Given(infos, addrs, vAddr, n + 1, now)
    ensures !IsTerrible(infos[id], now) ==> Given(infos, addrs, vAddr + [PeerOf(infos[id])], n + 1, now)
  {
    hide IsTerrible;
    forall i | 0 <= i < |vAddr| ensures Gave(infos, addrs, vAddr[i], n + 1, now) && Rank(infos, addrs, vAddr[i]) < n {
      assert Gave(infos, addrs, vAddr[i], n, now);
    }
  }

  /** The statistics after an attempt. */
  function Attempted(info: AddrInfo, fCountFailure: bool, nTime: int, nLastGood: int): AddrInfo {
    var tried := info.(nLastTry := nTime);
    if fCountFailure && info.nLastCountAttempt < nLastGood
    then tried.(nLastCountAttempt := nTime, nAttempts := info.nAttempts + 1) else tried
  }

  /** What hearing of a known address changes: a newer time, and more services. */
  function Refreshed(info: AddrInfo, nServices: nat, nTime: nat, penalty: int, now: int): (r: AddrInfo)
    ensures info.nTime >= 0 ==> r.nTime >= info.nTime
  {
    var nUpdateInterval := if now - nTime < 24 * 60 * 60 then 60 * 60 else 24 * 60 * 60;
    var t := if nTime != 0 && (info.nTime == 0 || info.nTime < nTime - nUpdateInterval - penalty)
      then (if nTime - penalty > 0 then nTime - penalty else 0) else info.nTime;
    info.(nTime := t, nServices := Bits.Or(info.nServices, nServices))
  }

  /** The entries that are in no table. */
  ghost function Unplaced(infos: Infos): set<int> {
    set id | id in infos && !infos[id].fInTried && infos[id].nRefCount == 0
  }

  /** An entry in no bucket was in none before either. */
  lemma UnplacedKept(was: Infos, now: Infos, id: int)
    requires KeptBut(was, now, Unplaced(was)) && id in now && !now[id].fInTried && now[id].nRefCount == 0
    ensures id in Unplaced(was)
  {
  }

  ghost function From(infos: Infos, k: nat): set<int> { set id | id in infos && id >= k }

  lemma FromNext(infos: Infos, k: nat, limbo: set<int>)
    requires Referenced(infos, limbo) && k !in limbo && forall id | id in limbo :: id >= k
    ensures Referenced(infos, From(infos, k + 1))
  {
  }

  /** One reference less, or gone when it was the last. */
  ghost predicate Dropped(was: AddrInfo, id: int, now: Infos) {
    if was.nRefCount == 1 then id !in now
    else id in now && SameButPosition(was.(nRefCount := was.nRefCount - 1), now[id])
  }
}
