/** The stochastic address manager, CAddrMan (src/addrman.h, src/addrman.cpp). Five indexes over the
    same entries are updated by methods that call each other; every public operation keeps them
    consistent, in the sense of the original's own Check_ and more. */
module AddrManager {
  import opened AddrManIndex
  import opened AddrManDisk
  import opened Arithmetic

  const SET_TRIED_COLLISION_SIZE := 10
  const REPLACEMENT_HOURS := 4
  const TEST_WINDOW := 40 * 60
  const GETADDR_MAX_PCT := 23
  const GETADDR_MAX := 2500

  datatype Option<T> = None | Some(value: T)

  /** The contents of a table of buckets; -1 marks an empty slot. */
  ghost function Tab(a: array2<int>): Table
    reads a
  {
    map b, p | 0 <= b < a.Length0 && 0 <= p < a.Length1 && a[b, p] != -1 :: (b, p) := a[b, p]
  }

  lemma TabAt(a: array2<int>, b: int, p: int)
    requires 0 <= b < a.Length0 && 0 <= p < a.Length1
    ensures (b, p) in Tab(a) <==> a[b, p] != -1
    ensures a[b, p] != -1 ==> Tab(a)[(b, p)] == a[b, p]
  {
  }

  method SetSlot(a: array2<int>, b: nat, p: nat, id: int)
    requires b < a.Length0 && p < a.Length1
    modifies a
    ensures Tab(a) == if id == -1 then old(Tab(a)) - {(b, p)} else old(Tab(a))[(b, p) := id]
    ensures a[b, p] == id
  {
    a[b, p] := id;
  }

  datatype Verdict = Forget | Replace | Wait

  /** The test of ResolveCollisions_: the old entry stays if it had a success lately; it goes if it was tried
      lately without one, or could not be tested for too long. */
  function Judge(occupant: AddrInfo, candidate: AddrInfo, now: int): Verdict {
    if now - occupant.lastSuccess < REPLACEMENT_HOURS * (60 * 60) then Forget
    else if now - occupant.lastTry < REPLACEMENT_HOURS * (60 * 60) then
      if now - occupant.lastTry > 60 then Replace else Wait
    else if now - candidate.lastSuccess > TEST_WINDOW then Replace
    else Wait
  }

  /** In hours and minutes. */
  lemma JudgeTimes(occupant: AddrInfo, candidate: AddrInfo, now: int)
    ensures Judge(occupant, candidate, now) == Forget <==> now - occupant.lastSuccess < 14400
    ensures Judge(occupant, candidate, now) == Replace <==>
      && now - occupant.lastSuccess >= 14400
      && (60 < now - occupant.lastTry < 14400 || (now - occupant.lastTry >= 14400 && now - candidate.lastSuccess > 2400))
    ensures Judge(occupant, candidate, now) == Wait <==>
      && now - occupant.lastSuccess >= 14400
      && (now - occupant.lastTry <= 60 || (now - occupant.lastTry >= 14400 && now - candidate.lastSuccess <= 2400))
  {
  }

  /** What becomes of a pending collision: nothing yet, if the occupant of the slot is still to be tested. */
  ghost function VerdictOn(h: Hashes, key: nat, v: Book, id: Id, now: int): (r: Verdict)
    ensures r == Replace ==> id in v.info
  {
    if id !in v.info || !h.valid(v.info[id].service.ip) then Forget
    else
      var slot := h.TriedSlot(key, v.info[id].service);
      if slot !in v.tTried || v.tTried[slot] !in v.info then Replace
      else Judge(v.info[v.tTried[slot]], v.info[id], now)
  }

  /** The effect of looking at one pending collision. */
  ghost predicate Settles(h: Hashes, key: nat, v: Book, id: Id, v': Book, now: int) {
    if VerdictOn(h, key, v, id, now) == Replace then BecomesGood(h, key, v, id, now, v') else v' == v
  }

  /** The pending collisions in `order` have been looked at, those in `rest` not yet; the ones that had to wait
      are still pending. */
  ghost predicate Resolved(h: Hashes, key: nat, order: seq<Id>, states: seq<Book>, before: set<Id>, rest: set<Id>,
                           pending: set<Id>, now: int) {
    && |states| == |order| + 1
    && (forall i | 0 <= i < |order| :: Settles(h, key, states[i], order[i], states[i + 1], now))
    && (forall i, j | 0 <= i < j < |order| :: order[i] < order[j])
    && (forall i, id | 0 <= i < |order| && id in rest :: order[i] < id)
    && (forall id :: id in before <==> id in order || id in rest)
    && (forall i | 0 <= i < |order| :: order[i] in pending <==> VerdictOn(h, key, states[i], order[i], now) == Wait)
    && rest <= pending <= before
  }

  lemma ResolvedNone(h: Hashes, key: nat, v: Book, before: set<Id>, now: int)
    ensures Resolved(h, key, [], [v], before, before, before, now)
  {
  }

  lemma ResolvedNext(h: Hashes, key: nat, order: seq<Id>, states: seq<Book>, before: set<Id>, rest: set<Id>,
                     pending: set<Id>, now: int, id: Id, v: Book)
    requires Resolved(h, key, order, states, before, rest, pending, now)
    requires id in rest && forall x | x in rest :: id <= x
    requires Settles(h, key, states[|order|], id, v, now)
    ensures Resolved(h, key, order + [id], states + [v], before, rest - {id},
                     if VerdictOn(h, key, states[|order|], id, now) == Wait then pending else pending - {id}, now)
  {
    hide Settles, VerdictOn;
    var order', states' := order + [id], states + [v];
    forall i | 0 <= i < |order'| ensures Settles(h, key, states'[i], order'[i], states'[i + 1], now) {
      if i < |order| { assert states'[i] == states[i] && states'[i + 1] == states[i + 1]; }
    }
    forall x ensures x in before <==> x in order' || x in rest - {id} {
      assert x in order ==> x in order';
    }
  }

  /** A single pending collision, by the times of the two entries: the occupant of the slot holds it by a success
      in the last four hours. Otherwise it loses it if it was tried in these four hours, but more than a minute
      ago, or not tried for that long while the candidate has waited for more than forty minutes. */
  lemma SoleCollision(h: Hashes, key: nat, order: seq<Id>, states: seq<Book>, id: Id, pending: set<Id>, now: int)
    requires Resolved(h, key, order, states, {id}, {}, pending, now)
    requires Sound(h, key, states[0], 0, {}) && id in states[0].info && h.valid(states[0].info[id].service.ip)
    requires h.TriedSlot(key, states[0].info[id].service) in states[0].tTried
    ensures order == [id]
    ensures var v, v' := states[0], states[1];
      var slot := h.TriedSlot(key, v.info[id].service);
      && v.tTried[slot] in v.info
      && var occupant, candidate := v.info[v.tTried[slot]], v.info[id];
      var unproved := now - occupant.lastSuccess >= 14400;
      var failed := 60 < now - occupant.lastTry < 14400;
      var untested := now - occupant.lastTry >= 14400;
      && (unproved && (failed || (untested && now - candidate.lastSuccess > 2400)) ==>
            pending == {} && id in v'.info && v'.info[id].inTried && v'.info[id].lastSuccess == now
            && slot in v'.tTried && v'.tTried[slot] == id)
      && (unproved && !failed && !(untested && now - candidate.lastSuccess > 2400) ==> pending == {id} && v' == v)
      && (!unproved ==> pending == {} && v' == v)
  {
    hide Sound, Hashes.TriedSlot, NewAfter;
    assert id in order && order[0] == id;
    assert forall i | 0 <= i < |order| :: order[i] in order;
    var v, v' := states[0], states[1];
    var slot := h.TriedSlot(key, v.info[id].service);
    TriedOccupant(h, key, v, 0, {}, slot);
    JudgeTimes(v.info[v.tTried[slot]], v.info[id], now);
    assert Settles(h, key, v, id, v', now);
    assert pending == if VerdictOn(h, key, v, id, now) == Wait then {id} else {};
    Housed(h, key, v, id);
  }

  method Least(s: set<Id>) returns (x: Id)
    requires s != {}
    ensures x in s && forall y | y in s :: x <= y
  {
    ghost var _ := Member(s);
    x :| x in s;
    var rest := s;
    while rest != {}
      invariant rest <= s && x in s && forall y | y in s && y !in rest :: x <= y
      decreases |rest|
    {
      ghost var _ := Member(rest);
      var y :| y in rest;
      if y < x {
        x := y;
      }
      rest := rest - {y};
    }
  }

  lemma TracedAnywhere(info: Infos, id: Id, e: AddrInfo, pos: int, info': Infos)
    requires Traced(info[id := e.(randomPos := pos)], info')
    ensures Traced(info[id := e], info')
  {
  }

  lemma RefreshedService(info: Infos, id: Id, services: set<nat>, time: int, penalty: nat, now: int)
    requires id in info
    ensures Refresh(info[id], services, time, penalty, now).service == info[id].service
  {
  }

  /** Of the entries drawn, exactly those that are not terrible are picked, each once. */
  ghost predicate Picked(ids: seq<Id>, drawn: seq<Id>, info: Infos, now: int) {
    && (forall i | 0 <= i < |ids| :: ids[i] in drawn && ids[i] in info && !IsTerrible(info[ids[i]], now))
    && (forall i, j | 0 <= i < j < |ids| :: ids[i] != ids[j])
    && (forall id | id in drawn :: id in info && (IsTerrible(info[id], now) || id in ids))
  }

  lemma PickNone(info: Infos, now: int)
    ensures Picked([], [], info, now) && SameButPos(info, info)
  {
  }

  lemma PickNext(ids: seq<Id>, drawn: seq<Id>, info: Infos, info': Infos, id: Id, now: int)
    requires Picked(ids, drawn, info, now) && SameButPos(info, info') && id in info' && id !in drawn
    ensures Picked(if IsTerrible(info'[id], now) then ids else ids + [id], drawn + [id], info', now)
  {
    TerribleKept(info, info', now);
    hide SameButPos, IsTerrible;
  }

  lemma PickEnd(ids: seq<Id>, drawn: seq<Id>, info: Infos, now: int)
    requires Picked(ids, drawn, info, now)
    ensures forall i | 0 <= i < |ids| :: ids[i] in info && !IsTerrible(info[ids[i]], now)
    ensures forall i, j | 0 <= i < j < |ids| :: ids[i] != ids[j]
    ensures forall id | id in drawn :: id in info && (IsTerrible(info[id], now) || id in ids)
  {
  }

  lemma SameButPosTrans(info: Infos, info': Infos, info'': Infos)
    requires SameButPos(info, info') && SameButPos(info', info'')
    ensures SameButPos(info, info'')
  {
  }

  /** An entry that is in no table yet. */
  function Unplaced(s: Service, services: set<nat>, time: int, source: NetAddr): AddrInfo {
    AddrInfo(s, services, time, source, 0, 0, 0, 0, 0, false, 0)
  }

  /** The public operations, with the values the original takes from clocks and random sources. */
  datatype Op =
    | AddOp(s: Service, services: set<nat>, time: int, source: NetAddr, penalty: nat, now: int, draw: nat)
    | GoodOp(s: Service, testBeforeEvict: bool, time: int, start: nat)
    | AttemptOp(s: Service, countFailure: bool, time: int)
    | ConnectedOp(s: Service, time: int)
    | SetServicesOp(s: Service, services: set<nat>)
    | GetAddrOp(now: int, pick: nat -> nat)
    | ResolveOp(now: int, start: nat)
    | SelectCollisionOp

  class AddrMan {
    const hashes: Hashes
    var nKey: nat
    var nIdCount: int
    var mapInfo: Infos
    var mapAddr: map<NetAddr, Id>
    var vRandom: seq<Id>
    var nTried: int
    var nNew: int
    const vvTried: array2<int>
    const vvNew: array2<int>
    var nLastGood: int
    var triedCollisions: set<Id>

    ghost predicate Shaped() {
      && vvTried.Length0 == TRIED_BUCKET_COUNT && vvTried.Length1 == BUCKET_SIZE
      && vvNew.Length0 == NEW_BUCKET_COUNT && vvNew.Length1 == BUCKET_SIZE
      && vvTried != vvNew
    }

    ghost function Books(): Book
      requires Shaped()
      reads this, vvTried, vvNew
    {
      Book(mapInfo, mapAddr, vRandom, Tab(vvNew), Tab(vvTried), nIdCount, nNew, nTried)
    }

    ghost predicate Consistent(ahead: int, homeless: set<Id>)
      reads this, vvTried, vvNew
    {
      Shaped() && nIdCount >= 0 && Sound(hashes, nKey, Books(), ahead, homeless)
    }

    /** The slot a pending collision waits for is occupied. */
    ghost predicate CollisionsPending()
      reads this, vvTried
    {
      forall id | id in triedCollisions ::
        id < nIdCount && (id in mapInfo ==> hashes.TriedSlot(nKey, mapInfo[id].service) in Tab(vvTried))
    }

    /** The new slot an entry has by its own source. */
    ghost function HomeSlot(e: AddrInfo): Slot
      reads this`nKey
    {
      hashes.NewSlot(nKey, e.service, e.source)
    }

    ghost predicate Valid()
      reads this, vvTried, vvNew
    {
      Consistent(0, {}) && CollisionsPending() && |triedCollisions| <= SET_TRIED_COLLISION_SIZE
    }

    method SwapRandom(pos1: nat, pos2: nat, ghost ahead: int, ghost homeless: set<Id>)
      requires pos1 < |vRandom| && pos2 < |vRandom|
      requires Consistent(ahead, homeless)
      modifies this`mapInfo, this`vRandom
      ensures Consistent(ahead, homeless) && SameButPos(old(mapInfo), mapInfo)
      ensures vRandom == old(vRandom)[pos1 := old(vRandom)[pos2]][pos2 := old(vRandom)[pos1]]
    {
      hide Sound, SameButPos;
      SwapSound(hashes, nKey, Books(), ahead, homeless, pos1, pos2);
      ghost var target := Swap(Books(), pos1, pos2);
      if pos1 != pos2 {
        var id1, id2 := vRandom[pos1], vRandom[pos2];
        mapInfo := mapInfo[id1 := mapInfo[id1].(randomPos := pos2)];
        mapInfo := mapInfo[id2 := mapInfo[id2].(randomPos := pos1)];
        vRandom := vRandom[pos1 := id2][pos2 := id1];
      }
      assert Books() == target;
    }

    method Delete(id: Id, ghost ahead: int, ghost homeless: set<Id>)
      requires Consistent(ahead, homeless)
      requires id in homeless
      modifies this`mapInfo, this`mapAddr, this`vRandom, this`nNew
      ensures Consistent(ahead - 1, homeless - {id})
      ensures id in old(mapInfo) && SameButPos(old(mapInfo) - {id}, mapInfo)
    {
      hide Sound, Tab, SameButPos;
      HomelessFree(hashes, nKey, Books(), ahead, homeless, id);
      SwapRandom(mapInfo[id].randomPos, |vRandom| - 1, ahead, homeless);
      PopSound(hashes, nKey, Books(), ahead, homeless, id);
      RemoveSame(old(mapInfo), mapInfo, id);
      vRandom := vRandom[..|vRandom| - 1];
      mapAddr := mapAddr - {mapInfo[id].service.ip};
      mapInfo := mapInfo - {id};
      nNew := nNew - 1;
    }

    /** Empties one new slot; an entry that was only there is deleted. */
    method ClearNew(bucket: nat, pos: nat, ghost ahead: int, ghost homeless: set<Id>)
      requires Consistent(ahead, homeless) && bucket < NEW_BUCKET_COUNT && pos < BUCKET_SIZE
      modifies this`mapInfo, this`mapAddr, this`vRandom, this`nNew, vvNew
      ensures Consistent(ahead, homeless)
      ensures Tab(vvNew) == old(Tab(vvNew)) - {(bucket, pos)} && vvNew[bucket, pos] == -1
      ensures Traced(old(mapInfo), mapInfo) && KeptBut(old(mapInfo), mapInfo, old(vvNew[bucket, pos]))
      ensures old(vvNew[bucket, pos]) == -1 ==> mapInfo == old(mapInfo)
    {
      hide Sound, Tab, SameButPos, Traced, KeptBut;
      var id := vvNew[bucket, pos];
      ghost var slot := (bucket as int, pos as int);
      TabAt(vvNew, bucket, pos);
      if id != -1 {
        NewOccupant(hashes, nKey, Books(), ahead, homeless, slot);
        EmptySound(hashes, nKey, Books(), ahead, homeless, slot);
        mapInfo := mapInfo[id := mapInfo[id].(refCount := mapInfo[id].refCount - 1)];
        SetSlot(vvNew, bucket, pos, -1);
        if mapInfo[id].refCount == 0 {
          Delete(id, ahead + 1, homeless + {id});
          assert homeless + {id} - {id} == homeless;
          ClearedEffect(old(mapInfo), mapInfo, id, 0);
        } else {
          LoweredEffect(old(mapInfo), id, mapInfo[id].refCount);
        }
      } else {
        assert Tab(vvNew) == Tab(vvNew) - {slot};
        LoweredEffectNone(mapInfo);
      }
    }

    /** One round of the loop in MakeTried: the entry leaves one bucket. */
    method LeaveBucket(id: Id, bucket: nat)
      requires bucket < NEW_BUCKET_COUNT && id in mapInfo
      requires Consistent(One(mapInfo[id].refCount == 0), Gone(mapInfo[id].refCount, id))
      modifies this`mapInfo, vvNew
      ensures id in mapInfo && mapInfo == old(mapInfo)[id := old(mapInfo)[id].(refCount := mapInfo[id].refCount)]
      ensures Consistent(One(mapInfo[id].refCount == 0), Gone(mapInfo[id].refCount, id))
      ensures var slot := (bucket as int, hashes.BucketPosition(nKey, true, bucket, mapInfo[id].service));
        Tab(vvNew) == if slot in old(Tab(vvNew)) && old(Tab(vvNew))[slot] == id
                      then old(Tab(vvNew)) - {slot} else old(Tab(vvNew))
    {
      hide Sound, Tab;
      var pos := hashes.BucketPosition(nKey, true, bucket, mapInfo[id].service);
      TabAt(vvNew, bucket, pos);
      if vvNew[bucket, pos] == id {
        ghost var slot := (bucket as int, pos);
        KnownId(hashes, nKey, Books(), One(mapInfo[id].refCount == 0), Gone(mapInfo[id].refCount, id), id);
        NewOccupant(hashes, nKey, Books(), One(mapInfo[id].refCount == 0), Gone(mapInfo[id].refCount, id), slot);
        EmptySound(hashes, nKey, Books(), 0, {}, slot);
        SetSlot(vvNew, bucket, pos, -1);
        mapInfo := mapInfo[id := mapInfo[id].(refCount := mapInfo[id].refCount - 1)];
        assert {} + {id} == {id};
      }
    }

    /** First half of MakeTried: the entry leaves every new bucket. */
    method LeaveNew(id: Id)
      requires Consistent(0, {}) && id in mapInfo && !mapInfo[id].inTried
      modifies this`mapInfo, this`nNew, vvNew
      ensures Consistent(0, {id})
      ensures mapInfo == old(mapInfo)[id := old(mapInfo)[id].(refCount := 0)]
      ensures Tab(vvNew) == old(Tab(vvNew)) - Slots(old(Tab(vvNew)), id)
    {
      hide Sound, Tab, Slots;
      ghost var book := Books();
      SlotsBelowEnds(hashes, nKey, book, 0, {}, id);
      Housed(hashes, nKey, book, id);
      for bucket := 0 to NEW_BUCKET_COUNT
        invariant id in mapInfo && mapInfo == book.info[id := book.info[id].(refCount := mapInfo[id].refCount)]
        invariant Consistent(One(mapInfo[id].refCount == 0), Gone(mapInfo[id].refCount, id))
        invariant Tab(vvNew) == book.tNew - SlotsBelow(book.tNew, id, bucket)
      {
        SlotsBelowStep(hashes, nKey, book, 0, {}, id, bucket);
        LeaveBucket(id, bucket);
      }
      SlotsLeft(book.tNew, id);
      NoSlots(hashes, nKey, Books(), One(mapInfo[id].refCount == 0), Gone(mapInfo[id].refCount, id), id);
      Lag(hashes, nKey, Books(), 1, {id}, -1);
      nNew := nNew - 1;
    }

    /** A new slot is cleared and given to an entry that is not there yet, as Add_ and the eviction in
        MakeTried do. Whatever was there loses a reference, and is deleted if that was its last. */
    method EnterNew(id: Id, bucket: nat, pos: nat, ghost ahead: int, ghost homeless: set<Id>)
      requires Consistent(ahead, homeless) && id in mapInfo && bucket < NEW_BUCKET_COUNT
      requires !mapInfo[id].inTried && mapInfo[id].refCount < NEW_BUCKETS_PER_ADDRESS
      requires pos == hashes.BucketPosition(nKey, true, bucket, mapInfo[id].service)
      requires vvNew[bucket, pos] != id
      modifies this`mapInfo, this`mapAddr, this`vRandom, this`nNew, vvNew
      ensures id in mapInfo && Traced(old(mapInfo), mapInfo)
      ensures mapInfo[id].refCount == old(mapInfo)[id].refCount + 1
      ensures Consistent(ahead - One(old(mapInfo)[id].refCount == 0), homeless - {id})
      ensures Tab(vvNew) == old(Tab(vvNew))[(bucket, pos) := id]
      ensures forall x | x in old(mapInfo) && x !in mapInfo :: x == old(vvNew[bucket, pos]) != -1
    {
      hide Sound, Tab, Traced, KeptBut;
      ClearNew(bucket, pos, ahead, homeless);
      Survivors(old(mapInfo), mapInfo, old(vvNew[bucket, pos]), id);
      TabAt(vvNew, bucket, pos);
      KnownId(hashes, nKey, Books(), ahead, homeless, id);
      FillSound(hashes, nKey, Books(), ahead, homeless, (bucket as int, pos as int), id);
      mapInfo := mapInfo[id := mapInfo[id].(refCount := mapInfo[id].refCount + 1)];
      SetSlot(vvNew, bucket, pos, id);
      assert Tab(vvNew) == old(Tab(vvNew))[(bucket as int, pos as int) := id];
    }

    /** The old occupant of a tried slot moves back to the new table, displacing whatever is there. */
    method Evict(bucket: nat, pos: nat, ghost homeless: set<Id>) returns (id: Id)
      requires Consistent(0, homeless) && bucket < TRIED_BUCKET_COUNT && pos < BUCKET_SIZE
      requires vvTried[bucket, pos] != -1
      modifies this`mapInfo, this`mapAddr, this`vRandom, this`nNew, this`nTried, vvNew, vvTried
      ensures Consistent(0, homeless)
      ensures Tab(vvTried) == old(Tab(vvTried)) - {(bucket, pos)}
      ensures id == old(vvTried[bucket, pos]) && id in old(mapInfo) && Traced(old(mapInfo), mapInfo)
      ensures Tab(vvNew) == old(Tab(vvNew))[HomeSlot(old(mapInfo)[id]) := id]
      ensures forall x | x in old(mapInfo) && x !in mapInfo ::
        HomeSlot(old(mapInfo)[id]) in old(Tab(vvNew)) && old(Tab(vvNew))[HomeSlot(old(mapInfo)[id])] == x
    {
      hide Sound, Tab, Traced;
      TabAt(vvTried, bucket, pos);
      id := vvTried[bucket, pos];
      UnsetTriedSound(hashes, nKey, Books(), 0, homeless, (bucket as int, pos as int));
      TriedCount(hashes, nKey, Books(), 0, homeless, (bucket as int, pos as int));
      mapInfo := mapInfo[id := mapInfo[id].(inTried := false)];
      SetSlot(vvTried, bucket, pos, -1);
      nTried := nTried - 1;
      var newBucket := hashes.NewBucket(nKey, mapInfo[id].service, mapInfo[id].source);
      var newPos := hashes.BucketPosition(nKey, true, newBucket, mapInfo[id].service);
      TabAt(vvNew, newBucket, newPos);
      HomelessFree(hashes, nKey, Books(), 0, homeless + {id}, id);
      EnterNew(id, newBucket, newPos, 0, homeless + {id});
      TracedUntried(old(mapInfo), id, mapInfo);
      Lag(hashes, nKey, Books(), -1, homeless + {id} - {id}, 1);
      nNew := nNew + 1;
      assert homeless + {id} - {id} == homeless;
    }

    /** Slots of pending collisions stay occupied as long as tried slots are only filled. */
    twostate lemma CollisionsKept()
      requires old(CollisionsPending()) && triedCollisions <= old(triedCollisions) && nKey == old(nKey)
      requires old(Tab(vvTried)).Keys <= Tab(vvTried).Keys && nIdCount >= old(nIdCount)
      requires forall id | id in mapInfo ::
        if id in old(mapInfo) then mapInfo[id].service == old(mapInfo)[id].service else id >= old(nIdCount)
      ensures CollisionsPending()
    {
    }

    ghost function TriedSlotOf(id: Id): Slot
      requires id in mapInfo
      reads this`nKey, this`mapInfo
    {
      hashes.TriedSlot(nKey, mapInfo[id].service)
    }

    /** Second half of MakeTried: an entry out of the new table takes its tried slot, and the entry
        that was there goes back to the new table. */
    method EnterTried(id: Id)
      requires Consistent(0, {id}) && id in mapInfo
      modifies this`mapInfo, this`mapAddr, this`vRandom, this`nNew, this`nTried, vvNew, vvTried
      ensures Consistent(0, {}) && Traced(old(mapInfo), mapInfo)
      ensures id in mapInfo && mapInfo[id].inTried
      ensures Tab(vvTried) == old(Tab(vvTried))[old(TriedSlotOf(id)) := id]
      ensures old(TriedSlotOf(id) !in Tab(vvTried)) ==> Tab(vvNew) == old(Tab(vvNew))
      ensures old(TriedSlotOf(id) in Tab(vvTried)) ==>
        && old(Tab(vvTried)[TriedSlotOf(id)] in mapInfo)
        && Tab(vvNew) == old(Tab(vvNew))[old(HomeSlot(mapInfo[Tab(vvTried)[TriedSlotOf(id)]])) := old(Tab(vvTried)[TriedSlotOf(id)])]
    {
      hide Sound, Tab, Traced, Slots, Hashes.TriedBucket, Hashes.NewBucket, Hashes.BucketPosition;
      TracedRefl(mapInfo);
      var bucket := hashes.TriedBucket(nKey, mapInfo[id].service);
      var pos := hashes.BucketPosition(nKey, false, bucket, mapInfo[id].service);
      TabAt(vvTried, bucket, pos);
      if vvTried[bucket, pos] != -1 {
        var evicted := Evict(bucket, pos, {id});
      }
      HomelessFree(hashes, nKey, Books(), 0, {id}, id);
      KnownId(hashes, nKey, Books(), 0, {id}, id);
      TracedAt(old(mapInfo), mapInfo, id);
      TabAt(vvTried, bucket, pos);
      assert vvTried[bucket, pos] == -1;
      SetTriedSound(hashes, nKey, Books(), 0, {id}, id);
      SetSlot(vvTried, bucket, pos, id);
      nTried := nTried + 1;
      mapInfo := mapInfo[id := mapInfo[id].(inTried := true)];
      assert {id} - {id} == {};
      assert Tab(vvTried) == old(Tab(vvTried))[(bucket, pos) := id];
    }

    /** Moves an entry from the new table to its tried slot. */
    method MakeTried(id: Id)
      requires Valid() && id in mapInfo && !mapInfo[id].inTried
      modifies this`mapInfo, this`mapAddr, this`vRandom, this`nNew, this`nTried, vvNew, vvTried
      ensures Valid() && MovesToTried(hashes, nKey, old(Books()), id, Books())
    {
      hide Sound, Tab, Traced, Slots, Hashes.TriedBucket, Hashes.NewBucket, Hashes.BucketPosition;
      ghost var slot := TriedSlotOf(id);
      if slot in Tab(vvTried) { TriedOccupant(hashes, nKey, Books(), 0, {}, slot); }
      LeaveNew(id);
      TracedRef(old(mapInfo), id, 0);
      label Left:
      EnterTried(id);
      TracedTrans(old(mapInfo), old@Left(mapInfo), mapInfo);
      TracedAt(old(mapInfo), mapInfo, id);
      CollisionsKept();
    }

    /** Statistics of one entry change, its placement does not. */
    method Touch(id: Id, e: AddrInfo)
      requires Valid() && id in mapInfo
      requires e.service == mapInfo[id].service && e.refCount == mapInfo[id].refCount
      requires e.inTried == mapInfo[id].inTried && e.randomPos == mapInfo[id].randomPos
      modifies this`mapInfo
      ensures Valid() && mapInfo == old(mapInfo)[id := e]
    {
      hide Sound, Tab, Hashes.TriedSlot;
      TouchSound(hashes, nKey, Books(), 0, {}, id, e);
      mapInfo := mapInfo[id := e];
      CollisionsKept();
    }

    /** The entry for exactly this service, if there is one. */
    ghost predicate Knows(s: Service)
      reads this`mapAddr, this`mapInfo
    {
      s.ip in mapAddr && mapAddr[s.ip] in mapInfo && mapInfo[mapAddr[s.ip]].service == s
    }

    method Find(ip: NetAddr) returns (found: bool, id: Id)
      requires Consistent(0, {})
      ensures found <==> ip in mapAddr
      ensures found ==> id == mapAddr[ip] && id in mapInfo && mapInfo[id].service.ip == ip
    {
      found, id := ip in mapAddr, -1;
      if found {
        id := mapAddr[ip];
        KnownAddress(hashes, nKey, Books(), ip);
      }
    }

    /** The scan in Good_ for a bucket that holds the entry; it cannot fail. */
    method FindBucket(id: Id, start: nat) returns (bucket: nat)
      requires Valid() && id in mapInfo && !mapInfo[id].inTried
      ensures bucket < NEW_BUCKET_COUNT
      ensures vvNew[bucket, hashes.BucketPosition(nKey, true, bucket, mapInfo[id].service)] == id
    {
      hide Sound, Tab, Hashes.TriedSlot, Hashes.BucketPosition, CollisionsPending;
      ghost var slot := FindNewSlot(hashes, nKey, Books(), id);
      ghost var hit := ScanMeets(start, slot.0);
      TabAt(vvNew, slot.0, slot.1);
      KnownId(hashes, nKey, Books(), 0, {}, id);
      for n := 0 to NEW_BUCKET_COUNT
        invariant n <= hit
      {
        bucket := (n + start) % NEW_BUCKET_COUNT;
        var pos := hashes.BucketPosition(nKey, true, bucket, mapInfo[id].service);
        if vvNew[bucket, pos] == id {
          return;
        }
      }
      assert false;
    }

    /** Will moving this entry to tried have to wait for a test of the occupant of its slot? */
    ghost predicate Waits(id: Id, testBeforeEvict: bool)
      requires id in mapInfo
      reads this`mapInfo, this`nKey, vvTried
    {
      testBeforeEvict && !mapInfo[id].inTried && TriedSlotOf(id) in Tab(vvTried)
    }

    /** The last part of Good_: an entry of the new table is promoted or queued as a collision. */
    method Promote(id: Id, testBeforeEvict: bool, start: nat)
      requires Valid() && id in mapInfo && !mapInfo[id].inTried
      modifies this`mapInfo, this`mapAddr, this`vRandom, this`nNew, this`nTried, this`triedCollisions, vvNew, vvTried
      ensures Valid()
      ensures if old(Waits(id, testBeforeEvict)) then Books() == old(Books())
              else MovesToTried(hashes, nKey, old(Books()), id, Books())
      ensures triedCollisions
              == if old(Waits(id, testBeforeEvict)) && |old(triedCollisions)| < SET_TRIED_COLLISION_SIZE
                 then old(triedCollisions) + {id} else old(triedCollisions)
    {
      hide Sound, Tab, MovesToTried, Hashes.TriedBucket, Hashes.NewBucket, Hashes.BucketPosition;
      var _ := FindBucket(id, start);
      var bucket := hashes.TriedBucket(nKey, mapInfo[id].service);
      var pos := hashes.BucketPosition(nKey, false, bucket, mapInfo[id].service);
      TabAt(vvTried, bucket, pos);
      if testBeforeEvict && vvTried[bucket, pos] != -1 {
        if |triedCollisions| < SET_TRIED_COLLISION_SIZE {
          KnownId(hashes, nKey, Books(), 0, {}, id);
          triedCollisions := triedCollisions + {id};
        }
      } else {
        MakeTried(id);
      }
    }

    /** Marks an entry good. It ends up in the tried table, unless its slot there is taken and the
        occupant has to be tested first. */
    method Good(s: Service, testBeforeEvict: bool, time: int, start: nat)
      requires Valid()
      modifies this, vvNew, vvTried
      ensures Valid() && nLastGood == time && nKey == old(nKey) && nIdCount == old(nIdCount)
      ensures !old(Knows(s)) ==> Books() == old(Books()) && triedCollisions == old(triedCollisions)
      ensures old(Knows(s)) ==>
        var id, waits := old(mapAddr[s.ip]), old(Waits(mapAddr[s.ip], testBeforeEvict));
        && (if waits then Books() == old(Books()).(info := Marked(old(mapInfo), id, time))
            else BecomesGood(hashes, nKey, old(Books()), id, time, Books()))
        && triedCollisions == if waits && |old(triedCollisions)| < SET_TRIED_COLLISION_SIZE
                              then old(triedCollisions) + {id} else old(triedCollisions)
    {
      hide Sound, Tab, MovesToTried, Hashes.TriedSlot;
      var found, id := Find(s.ip);
      nLastGood := time;
      if !found || mapInfo[id].service != s {
        return;
      }
      Touch(id, mapInfo[id].(lastSuccess := time, lastTry := time, attempts := 0));
      if mapInfo[id].inTried {
        return;
      }
      Promote(id, testBeforeEvict, start);
    }

    /** A new entry, known to the indexes but not yet in a bucket. */
    method Create(s: Service, services: set<nat>, time: int, source: NetAddr) returns (id: Id)
      requires Valid() && s.ip !in mapAddr
      modifies this`mapInfo, this`mapAddr, this`vRandom, this`nIdCount
      ensures id == old(nIdCount) && id !in old(mapInfo) && Consistent(0, {id}) && nIdCount == id + 1
      ensures mapInfo == old(mapInfo)[id := AddrInfo(s, services, time, source, 0, 0, 0, 0, 0, false, |old(vRandom)|)]
      ensures mapAddr == old(mapAddr)[s.ip := id]
    {
      hide Sound, Tab, Hashes.TriedSlot;
      var e := AddrInfo(s, services, time, source, 0, 0, 0, 0, 0, false, |vRandom|);
      PushSound(hashes, nKey, Books(), 0, {}, e);
      assert {} + {nIdCount} == {nIdCount};
      id := nIdCount;
      nIdCount := nIdCount + 1;
      mapInfo := mapInfo[id := e];
      mapAddr := mapAddr[s.ip := id];
      vRandom := vRandom + [id];
    }

    /** Does an entry that is not in the slot yet get it? */
    ghost predicate Takes(slot: Slot, refCount: int, now: int)
      reads this`mapInfo, vvNew
    {
      slot in Tab(vvNew) && Tab(vvNew)[slot] in mapInfo ==>
        IsTerrible(mapInfo[Tab(vvNew)[slot]], now) || (mapInfo[Tab(vvNew)[slot]].refCount > 1 && refCount == 0)
    }

    /** The last part of Add_: the entry gets a slot for this source, or is dropped if it has none. */
    method Place(id: Id, source: NetAddr, now: int)
      requires id in mapInfo && !mapInfo[id].inTried && mapInfo[id].refCount < NEW_BUCKETS_PER_ADDRESS
      requires Consistent(One(mapInfo[id].refCount == 0), Gone(mapInfo[id].refCount, id))
      modifies this`mapInfo, this`mapAddr, this`vRandom, this`nNew, vvNew
      ensures Consistent(0, {}) && Traced(old(mapInfo), mapInfo)
      ensures var slot := hashes.NewSlot(nKey, old(mapInfo)[id].service, source);
        var takes := old(Takes(hashes.NewSlot(nKey, mapInfo[id].service, source), mapInfo[id].refCount, now));
        && Tab(vvNew) == (if takes then old(Tab(vvNew))[slot := id] else old(Tab(vvNew)))
        && (id in mapInfo <==> takes || old(mapInfo)[id].refCount > 0)
        && (if slot in old(Tab(vvNew)) && old(Tab(vvNew))[slot] == id then mapInfo == old(mapInfo)
            else if takes then mapInfo[id].refCount == old(mapInfo)[id].refCount + 1
            else old(mapInfo)[id].refCount > 0 ==> mapInfo == old(mapInfo))
        && forall x | x in old(mapInfo) && x != id && x !in mapInfo ::
             takes && slot in old(Tab(vvNew)) && old(Tab(vvNew))[slot] == x
    {
      hide Sound, Tab, Traced, Hashes.TriedBucket, Hashes.NewBucket, Hashes.BucketPosition;
      TracedRefl(mapInfo);
      ghost var ahead, homeless := One(mapInfo[id].refCount == 0), Gone(mapInfo[id].refCount, id);
      KnownId(hashes, nKey, Books(), ahead, homeless, id);
      var bucket := hashes.NewBucket(nKey, mapInfo[id].service, source);
      var pos := hashes.BucketPosition(nKey, true, bucket, mapInfo[id].service);
      TabAt(vvNew, bucket, pos);
      var existing := vvNew[bucket, pos];
      if existing != -1 { NewOccupant(hashes, nKey, Books(), ahead, homeless, (bucket, pos)); }
      if existing != id {
        var insert := existing == -1 || IsTerrible(mapInfo[existing], now) || (mapInfo[existing].refCount > 1 && mapInfo[id].refCount == 0);
        if insert {
          EnterNew(id, bucket, pos, ahead, homeless);
          assert homeless - {id} == {};
        } else if mapInfo[id].refCount == 0 {
          Delete(id, ahead, homeless);
          assert homeless - {id} == {};
          DeletedTraced(old(mapInfo), mapInfo, id);
        }
      }
    }

    /** Add_ for an address that is not known yet. */
    method AddUnknown(s: Service, services: set<nat>, time: int, source: NetAddr, now: int)
      requires Valid() && s.ip !in mapAddr
      modifies this`mapInfo, this`mapAddr, this`vRandom, this`nNew, this`nIdCount, vvNew
      ensures Valid()
      ensures var slot := hashes.NewSlot(nKey, s, source);
        var takes := old(Takes(hashes.NewSlot(nKey, s, source), 0, now));
        && Tab(vvNew) == (if takes then old(Tab(vvNew))[slot := old(nIdCount)] else old(Tab(vvNew)))
        && (s.ip in mapAddr <==> takes) && (takes ==> Knows(s) && mapAddr[s.ip] == old(nIdCount))
        && Traced(old(mapInfo)[old(nIdCount) := Unplaced(s, services, time, source)], mapInfo)
        && (old(nIdCount) in mapInfo <==> takes)
        && forall x | x in old(mapInfo) && x !in mapInfo ::
             takes && slot in old(Tab(vvNew)) && old(Tab(vvNew))[slot] == x
    {
      hide Sound, Tab, Traced, Hashes.TriedSlot, Hashes.NewBucket, Hashes.BucketPosition;
      ghost var slot := hashes.NewSlot(nKey, s, source);
      if slot in Tab(vvNew) { NewOccupant(hashes, nKey, Books(), 0, {}, slot); }
      var id := Create(s, services, time, source);
      Lag(hashes, nKey, Books(), 0, {id}, 1);
      nNew := nNew + 1;
      ghost var book := Books();
      Place(id, source, now);
      TracedSome(book.info, mapInfo);
      TracedAnywhere(old(mapInfo), id, Unplaced(s, services, time, source), |old(vRandom)|, mapInfo);
      CollisionsKept();
      AddressFollows(hashes, nKey, book, 1, {id}, Books(), id);
    }

    /** Does a known address get another slot? Only with news, outside tried, below the limit, if the draw
        succeeds, and if the slot for this source is not its own and lets it in. */
    ghost predicate Gains(id: Id, services: set<nat>, time: int, source: NetAddr, penalty: nat, now: int, draw: nat)
      requires id in mapInfo
      reads this`nKey, this`mapInfo, vvNew
    {
      var e, slot := Refresh(mapInfo[id], services, time, penalty, now), hashes.NewSlot(nKey, mapInfo[id].service, source);
      && time != 0 && (e.time == 0 || time > e.time) && !e.inTried && 0 <= e.refCount < NEW_BUCKETS_PER_ADDRESS
      && draw % Pow2(e.refCount) == 0
      && (slot in Tab(vvNew) ==> Tab(vvNew)[slot] != id) && Takes(slot, e.refCount, now)
    }

    /** Add_ for a known address: it may get one more slot, the less likely the more it has. */
    method AddKnown(id: Id, services: set<nat>, time: int, source: NetAddr, penalty: nat, now: int, draw: nat)
      requires Valid() && id in mapInfo
      modifies this`mapInfo, this`mapAddr, this`vRandom, this`nNew, vvNew
      ensures Valid() && id in mapInfo && mapInfo[id].service == old(mapInfo)[id].service
      ensures var refreshed := old(mapInfo)[id := Refresh(old(mapInfo)[id], services, time, penalty, now)];
        if old(Gains(id, services, time, source, penalty, now, draw)) then
          && Tab(vvNew) == old(Tab(vvNew))[old(hashes.NewSlot(nKey, mapInfo[id].service, source)) := id]
          && mapInfo[id].refCount == old(mapInfo)[id].refCount + 1 && Traced(refreshed, mapInfo)
        else Tab(vvNew) == old(Tab(vvNew)) && mapInfo == refreshed
      ensures forall x | x in old(mapInfo) && x !in mapInfo ::
        var slot := old(hashes.NewSlot(nKey, mapInfo[id].service, source));
        slot in old(Tab(vvNew)) && old(Tab(vvNew))[slot] == x
    {
      hide Sound, Tab, Traced, Hashes.TriedSlot, Hashes.NewBucket, Hashes.BucketPosition, IsTerrible;
      Housed(hashes, nKey, Books(), id);
      Touch(id, Refresh(mapInfo[id], services, time, penalty, now));
      var e := mapInfo[id];
      if time == 0 || (e.time != 0 && time <= e.time) || e.inTried || e.refCount == NEW_BUCKETS_PER_ADDRESS {
        return;
      }
      var factor := 1;
      for n := 0 to e.refCount
        invariant factor == Pow2(n)
      {
        factor := factor * 2;
      }
      if factor > 1 && draw % factor != 0 {
        return;
      }
      label Ready:
      Place(id, source, now);
      TracedSome(old@Ready(mapInfo), mapInfo);
      CollisionsKept();
    }

    /** Add_: hears of an address from a source. `draw` is the random number of the stochastic test.
        The result says that the address was unknown, even if it was not kept. */
    method Add(s: Service, services: set<nat>, time: int, source: NetAddr, timePenalty: nat, now: int, draw: nat)
      returns (isNew: bool)
      requires Valid()
      modifies this`mapInfo, this`mapAddr, this`vRandom, this`nNew, this`nIdCount, vvNew
      ensures Valid()
      ensures isNew <==> hashes.routable(s.ip) && s.ip !in old(mapAddr)
      ensures !hashes.routable(s.ip) ==> Books() == old(Books())
      ensures isNew ==>
        var penalty := if s.ip == source then 0 else timePenalty;
        var takes := old(Takes(hashes.NewSlot(nKey, s, source), 0, now));
        && Tab(vvNew) == (if takes then old(Tab(vvNew))[hashes.NewSlot(nKey, s, source) := old(nIdCount)] else old(Tab(vvNew)))
        && (s.ip in mapAddr <==> takes) && (takes ==> Knows(s) && mapAddr[s.ip] == old(nIdCount))
        && Traced(old(mapInfo)[old(nIdCount) := Unplaced(s, services, Max0(time - penalty), source)], mapInfo)
      ensures hashes.routable(s.ip) && s.ip in old(mapAddr) ==>
        var id, penalty := old(mapAddr[s.ip]), if s.ip == source then 0 else timePenalty;
        && id in old(mapInfo) && id in mapInfo && s.ip in mapAddr && mapAddr[s.ip] == id
        && var refreshed := old(mapInfo)[id := Refresh(old(mapInfo)[id], services, time, penalty, now)];
           if old(Gains(mapAddr[s.ip], services, time, source, if s.ip == source then 0 else timePenalty, now, draw)) then
             && Tab(vvNew) == old(Tab(vvNew))[hashes.NewSlot(nKey, old(mapInfo)[id].service, source) := id]
             && mapInfo[id].refCount == old(mapInfo)[id].refCount + 1 && Traced(refreshed, mapInfo)
           else Tab(vvNew) == old(Tab(vvNew)) && mapInfo == refreshed
      ensures forall x | x in old(mapInfo) && x !in mapInfo :: x in old(Tab(vvNew)).Values
    {
      hide Sound, Tab, Traced, Hashes.TriedSlot, Hashes.NewSlot, Refresh, Gains, Takes;
      if !hashes.routable(s.ip) {
        return false;
      }
      var found, id := Find(s.ip);
      var penalty := if s.ip == source then 0 else timePenalty;
      if found {
        AddKnown(id, services, time, source, penalty, now, draw);
        RefreshedService(old(mapInfo), id, services, time, penalty, now);
        KnownId(hashes, nKey, Books(), 0, {}, id);
      } else {
        AddUnknown(s, services, Max0(time - penalty), source, now);
      }
      isNew := !found;
    }

    /** Attempt_, Connected_ and SetServices_ change statistics of an entry known under exactly this service. */
    method Attempt(s: Service, countFailure: bool, time: int)
      requires Valid()
      modifies this`mapInfo
      ensures Valid()
      ensures !Knows(s) ==> mapInfo == old(mapInfo)
      ensures old(Knows(s)) ==>
        var id, e := mapAddr[s.ip], old(mapInfo)[mapAddr[s.ip]];
        var counts := countFailure && e.lastCountAttempt < nLastGood;
        mapInfo == old(mapInfo)[id := e.(lastTry := time,
                                         lastCountAttempt := if counts then time else e.lastCountAttempt,
                                         attempts := e.attempts + One(counts))]
    {
      hide Sound, Tab, Hashes.TriedSlot;
      var found, id := Find(s.ip);
      if !found || mapInfo[id].service != s {
        return;
      }
      var e := mapInfo[id].(lastTry := time);
      if countFailure && e.lastCountAttempt < nLastGood {
        e := e.(lastCountAttempt := time, attempts := e.attempts + 1);
      }
      Touch(id, e);
    }

    method Connected(s: Service, time: int)
      requires Valid()
      modifies this`mapInfo
      ensures Valid()
      ensures !Knows(s) ==> mapInfo == old(mapInfo)
      ensures old(Knows(s)) ==>
        var id, e := mapAddr[s.ip], old(mapInfo)[mapAddr[s.ip]];
        mapInfo == old(mapInfo)[id := e.(time := if time - e.time > 20 * 60 then time else e.time)]
    {
      hide Sound, Tab, Hashes.TriedSlot;
      var found, id := Find(s.ip);
      if found && mapInfo[id].service == s && time - mapInfo[id].time > 20 * 60 {
        Touch(id, mapInfo[id].(time := time));
      }
    }

    method SetServices(s: Service, services: set<nat>)
      requires Valid()
      modifies this`mapInfo
      ensures Valid()
      ensures !Knows(s) ==> mapInfo == old(mapInfo)
      ensures old(Knows(s)) ==>
        mapInfo == old(mapInfo)[mapAddr[s.ip] := old(mapInfo)[mapAddr[s.ip]].(services := services)]
    {
      hide Sound, Tab, Hashes.TriedSlot;
      var found, id := Find(s.ip);
      if found && mapInfo[id].service == s {
        Touch(id, mapInfo[id].(services := services));
      }
    }

    /** One pending collision is looked at. The result says whether it is settled. */
    method ResolveOne(idNew: Id, now: int, start: nat) returns (settled: bool)
      requires Valid() && idNew in triedCollisions
      modifies this, vvNew, vvTried
      ensures Valid() && triedCollisions == old(triedCollisions) && nIdCount == old(nIdCount) && nKey == old(nKey)
      ensures settled <==> VerdictOn(hashes, nKey, old(Books()), idNew, now) != Wait
      ensures Settles(hashes, nKey, old(Books()), idNew, Books(), now)
    {
      hide Sound, Tab, BecomesGood, Hashes.TriedBucket, Hashes.NewBucket, Hashes.BucketPosition;
      settled := true;
      if idNew in mapInfo && hashes.valid(mapInfo[idNew].service.ip) {
        var infoNew := mapInfo[idNew];
        KnownId(hashes, nKey, Books(), 0, {}, idNew);
        var bucket := hashes.TriedBucket(nKey, infoNew.service);
        var pos := hashes.BucketPosition(nKey, false, bucket, infoNew.service);
        TabAt(vvTried, bucket, pos);
        var idOld := vvTried[bucket, pos];
        // The original also has a branch for an empty slot ("not actually a collision anymore").
        assert idOld != -1;
        TriedOccupant(hashes, nKey, Books(), 0, {}, (bucket, pos));
        var infoOld := mapInfo[idOld];
        if now - infoOld.lastSuccess < REPLACEMENT_HOURS * (60 * 60) {
          // the old entry has proved itself
        } else if now - infoOld.lastTry < REPLACEMENT_HOURS * (60 * 60) {
          if now - infoOld.lastTry > 60 {
            Good(infoNew.service, false, now, start);
          } else {
            settled := false;
          }
        } else if now - infoNew.lastSuccess > TEST_WINDOW {
          Good(infoNew.service, false, now, start);
        } else {
          settled := false;
        }
      }
    }

    /** ResolveCollisions_: the pending collisions are looked at one after the other, in the order of their ids.
        The results are that order and the states in between. */
    method ResolveCollisions(now: int, start: nat) returns (ghost order: seq<Id>, ghost states: seq<Book>)
      requires Valid()
      modifies this, vvNew, vvTried
      ensures Valid() && nKey == old(nKey) && nIdCount == old(nIdCount)
      ensures Resolved(hashes, nKey, order, states, old(triedCollisions), {}, triedCollisions, now)
      ensures states[0] == old(Books()) && states[|order|] == Books()
    {
      hide Sound, Tab, Hashes.TriedSlot, Resolved, Settles, VerdictOn;
      var rest := triedCollisions;
      order, states := [], [Books()];
      ResolvedNone(hashes, nKey, Books(), rest, now);
      while rest != {}
        invariant Valid() && nKey == old(nKey) && nIdCount == old(nIdCount) && rest <= triedCollisions
        invariant Resolved(hashes, nKey, order, states, old(triedCollisions), rest, triedCollisions, now)
        invariant |states| == |order| + 1 && states[0] == old(Books()) && states[|order|] == Books()
        decreases |rest|
      {
        var idNew := Least(rest);
        ghost var pending := triedCollisions;
        var settled := ResolveOne(idNew, now, start);
        if settled {
          DropCollision(idNew);
        }
        ResolvedNext(hashes, nKey, order, states, old(triedCollisions), rest, pending, now, idNew, Books());
        rest := rest - {idNew};
        order, states := order + [idNew], states + [Books()];
      }
    }

    method DropCollision(id: Id)
      requires Valid() && id in triedCollisions
      modifies this`triedCollisions
      ensures Valid() && triedCollisions == old(triedCollisions) - {id}
    {
      hide Sound, Tab, Hashes.TriedSlot;
      triedCollisions := triedCollisions - {id};
    }

    /** The entry in the tried slot that a pending entry is waiting for. */
    ghost predicate Blocks(info: AddrInfo, id: Id)
      reads this`nKey, this`mapInfo, vvTried
    {
      && id in mapInfo && TriedSlotOf(id) in Tab(vvTried) && Tab(vvTried)[TriedSlotOf(id)] in mapInfo
      && info == mapInfo[Tab(vvTried)[TriedSlotOf(id)]] && info.inTried
    }

    /** SelectTriedCollision_: the answer is the tried entry in the way of a pending one, never the default
        that reading slot -1 would create. */
    method SelectTriedCollision() returns (r: Option<AddrInfo>)
      requires Valid()
      modifies this`triedCollisions
      ensures Valid()
      ensures r.Some? ==> triedCollisions == old(triedCollisions) && exists id | id in triedCollisions :: Blocks(r.value, id)
      ensures r.None? ==> (triedCollisions == {} && old(triedCollisions) == {})
                          || exists id | id in old(triedCollisions) :: id !in mapInfo && triedCollisions == old(triedCollisions) - {id}
    {
      hide Sound, Tab, Hashes.TriedBucket, Hashes.BucketPosition;
      if triedCollisions == {} {
        return None;
      }
      ghost var _ := Member(triedCollisions);
      var idNew :| idNew in triedCollisions;
      if idNew !in mapInfo {
        DropCollision(idNew);
        return None;
      }
      var bucket := hashes.TriedBucket(nKey, mapInfo[idNew].service);
      var pos := hashes.BucketPosition(nKey, false, bucket, mapInfo[idNew].service);
      TabAt(vvTried, bucket, pos);
      TriedOccupant(hashes, nKey, Books(), 0, {}, (bucket, pos));
      r := Some(mapInfo[vvTried[bucket, pos]]);
      assert Blocks(r.value, idNew);
    }

    /** One round of the loop in GetAddr_: a random entry comes to position n of vRandom. */
    method Draw(n: nat, pos: nat) returns (id: Id)
      requires Valid() && n <= pos < |vRandom|
      modifies this`mapInfo, this`vRandom
      ensures Valid() && SameButPos(old(mapInfo), mapInfo)
      ensures |vRandom| == |old(vRandom)| && id == vRandom[n] == old(vRandom)[pos]
      ensures vRandom[..n] == old(vRandom)[..n] && id in mapInfo && id !in vRandom[..n]
    {
      hide Sound, Tab, Hashes.TriedSlot, SameButPos;
      SwapRandom(n, pos, 0, {});
      SameButPosPlacement(old(mapInfo), mapInfo);
      CollisionsKept();
      RandomEntry(hashes, nKey, Books(), n);
      id := vRandom[n];
    }

    /** GetAddr_: a random selection of 23% of the entries, at most 2500, without terrible ones and without
        repetition; fewer only if there are no others. `pick` stands for the random number generator. */
    method GetAddr(now: int, pick: nat -> nat) returns (ids: seq<Id>)
      requires Valid()
      modifies this`mapInfo, this`vRandom
      ensures Valid() && SameButPos(old(mapInfo), mapInfo)
      ensures |ids| <= GETADDR_MAX && 100 * |ids| <= GETADDR_MAX_PCT * |vRandom|
      ensures forall i | 0 <= i < |ids| :: ids[i] in mapInfo && !IsTerrible(mapInfo[ids[i]], now)
      ensures forall i, j | 0 <= i < j < |ids| :: ids[i] != ids[j]
      ensures |ids| < GETADDR_MAX && 100 * (|ids| + 1) <= GETADDR_MAX_PCT * |vRandom| ==>
        forall id | id in mapInfo :: IsTerrible(mapInfo[id], now) || id in ids
    {
      hide Sound, Tab, Hashes.TriedSlot, CollisionsPending, IsTerrible, Picked, SameButPos;
      ids := [];
      var nodes := GETADDR_MAX_PCT * |vRandom| / 100;
      if nodes > GETADDR_MAX {
        nodes := GETADDR_MAX;
      }
      var n := 0;
      PickNone(mapInfo, now);
      while n < |vRandom| && |ids| < nodes
        invariant 0 <= n <= |vRandom| == |old(vRandom)| && |ids| <= nodes
        invariant Valid() && SameButPos(old(mapInfo), mapInfo) && Picked(ids, vRandom[..n], mapInfo, now)
      {
        ghost var before := mapInfo;
        var id := Draw(n, n + pick(n) % (|vRandom| - n));
        PickNext(ids, vRandom[..n], before, mapInfo, id, now);
        SameButPosTrans(old(mapInfo), before, mapInfo);
        assert vRandom[..n + 1] == vRandom[..n] + [id];
        if !IsTerrible(mapInfo[id], now) {
          ids := ids + [id];
        }
        n := n + 1;
      }
      AllInRandom(hashes, nKey, Books());
      PickEnd(ids, vRandom[..n], mapInfo, now);
      assert n == |vRandom| ==> vRandom[..n] == vRandom;
    }

    /** All slots become empty. */
    static method Wipe(a: array2<int>)
      modifies a
      ensures Tab(a) == map[]
    {
      for b := 0 to a.Length0
        invariant forall x, p | 0 <= x < b && 0 <= p < a.Length1 :: a[x, p] == -1
      {
        for q := 0 to a.Length1
          invariant forall x, p | 0 <= x < b && 0 <= p < a.Length1 :: a[x, p] == -1
          invariant forall p | 0 <= p < q :: a[b, p] == -1
        {
          a[b, q] := -1;
        }
      }
    }

    /** Clear forgets every entry but not the pending collisions, whose ids will be given out again: the
        manager is only consistent afterwards if there were none. */
    method Clear(key: nat)
      requires Shaped()
      modifies this, vvNew, vvTried
      ensures Consistent(0, {}) && nKey == key && mapInfo == map[] && mapAddr == map[]
      ensures Tab(vvNew) == map[] && Tab(vvTried) == map[] && vRandom == [] && nIdCount == nNew == nTried == 0
      ensures nLastGood == 1
      ensures triedCollisions == old(triedCollisions)
      ensures (forall id | id in old(triedCollisions) :: id >= 0) ==> (Valid() <==> old(triedCollisions) == {})
    {
      hide Sound, Tab;
      vRandom := [];
      nKey := key;
      Wipe(vvNew);
      Wipe(vvTried);
      nIdCount, nTried, nNew, nLastGood := 0, 0, 0, 1;
      mapInfo, mapAddr := map[], map[];
      EmptyBookSound(hashes, nKey);
      if triedCollisions != {} { var _ := Member(triedCollisions); }
    }

    constructor (hashes: Hashes, key: nat)
      ensures this.hashes == hashes && nKey == key && Valid() && fresh(vvNew) && fresh(vvTried)
      ensures mapInfo == map[] && mapAddr == map[] && triedCollisions == {} && nLastGood == 1
      ensures Tab(vvNew) == map[] && Tab(vvTried) == map[] && nIdCount == 0
    {
      this.hashes := hashes;
      vvTried := new int[TRIED_BUCKET_COUNT, BUCKET_SIZE];
      vvNew := new int[NEW_BUCKET_COUNT, BUCKET_SIZE];
      triedCollisions := {};
      new;
      Clear(key);
    }

    /** The first loops of Serialize: the records of one list, with the number each id will get. */
    method WriteRecords(tried: bool) returns (records: seq<Record>, unkIds: map<Id, int>)
      requires Valid()
      ensures records == RecordsBelow(mapInfo, nIdCount, tried)
      ensures Ranks(mapInfo, unkIds, tried)
    {
      hide Sound, Tab, CollisionsPending;
      records, unkIds := [], map[];
      ListLengths(hashes, nKey, Books());
      for id := 0 to nIdCount
        invariant records == RecordsBelow(mapInfo, id, tried)
        invariant forall x | x in mapInfo && 0 <= x < id :: x in unkIds && unkIds[x] == |IdsBelow(mapInfo, x, tried)|
      {
        RecordsOfIds(mapInfo, id, tried);
        if id in mapInfo {
          unkIds := unkIds[id := |records|];
          if Listed(mapInfo[id], tried) {
            IdsBelowRank(mapInfo, nIdCount, tried, id);
            assert |records| != if tried then nTried else nNew;
            records := records + [ToRecord(mapInfo[id])];
          }
        }
      }
      forall id | id in mapInfo ensures 0 <= id < nIdCount { KnownId(hashes, nKey, Books(), 0, {}, id); }
    }

    method WriteBucket(b: nat, unkIds: map<Id, int>) returns (list: seq<int>)
      requires Valid() && b < NEW_BUCKET_COUNT
      requires Ranks(mapInfo, unkIds, false)
      ensures list == BucketList(Books(), b, BUCKET_SIZE)
    {
      hide Sound, Tab, CollisionsPending, IdsBelow, Ranks;
      list := [];
      for i := 0 to BUCKET_SIZE
        invariant list == BucketList(Books(), b, i)
      {
        TabAt(vvNew, b, i);
        var id := vvNew[b, i];
        if id != -1 {
          NewOccupant(hashes, nKey, Books(), 0, {}, (b as int, i));
          RankOf(mapInfo, unkIds, false, id);
          list := list + [unkIds[id]];
        }
      }
    }

    method Serialize() returns (d: Disk)
      requires Valid()
      ensures d == Saved(nKey, Books())
    {
      hide Sound, Tab, CollisionsPending, IdsBelow, RecordsBelow, BucketList;
      var newRecords, unkIds := WriteRecords(false);
      var triedRecords, _ := WriteRecords(true);
      var buckets: seq<seq<int>> := [];
      for b := 0 to NEW_BUCKET_COUNT
        invariant |buckets| == b && forall x | 0 <= x < b :: buckets[x] == BucketList(Books(), x, BUCKET_SIZE)
      {
        var list := WriteBucket(b, unkIds);
        buckets := buckets + [list];
      }
      d := Disk(1, 32, nKey, nNew, nTried, FlipBit30(NEW_BUCKET_COUNT), newRecords, triedRecords, buckets);
    }

    /** One record becomes an entry under the next number. */
    method Load(r: Record, id: Id, inTried: bool)
      requires Indexed(mapInfo, mapAddr, vRandom) && id !in mapInfo && r.service.ip !in mapAddr
      modifies this`mapInfo, this`mapAddr, this`vRandom
      ensures Indexed(mapInfo, mapAddr, vRandom) && vRandom == old(vRandom) + [id]
      ensures mapInfo == old(mapInfo)[id := FromRecord(r, 0, inTried, |old(vRandom)|)]
    {
      hide Indexed;
      var e := FromRecord(r, 0, inTried, |vRandom|);
      PushIndexed(mapInfo, mapAddr, vRandom, id, e);
      mapInfo := mapInfo[id := e];
      mapAddr := mapAddr[e.service.ip := id];
      vRandom := vRandom + [id];
    }

    /** Unserialize, first loop: the new entries. */
    method LoadNew(records: seq<Record>, ghost v: Book)
      requires Sound(hashes, nKey, v, 0, {}) && v.idCount >= 0 && records == RecordsBelow(v.info, v.idCount, false)
      requires mapInfo == map[] && mapAddr == map[] && vRandom == []
      modifies this`mapInfo, this`mapAddr, this`vRandom
      ensures v.nNew >= 0 && mapInfo == Loading(v, v.nNew, map[])
      ensures Indexed(mapInfo, mapAddr, vRandom) && |vRandom| == v.nNew
    {
      hide Sound, Indexed, Numbered, Loading, IdsBelow, RecordsBelow;
      ListLengths(hashes, nKey, v);
      RecordsOfIds(v.info, v.idCount, false);
      NothingLoaded(v);
      for n := 0 to |records|
        invariant mapInfo == Loading(v, n, map[]) && Indexed(mapInfo, mapAddr, vRandom) && |vRandom| == n
      {
        LoadingStep(hashes, nKey, v, n, map[]);
        LoadingFresh(hashes, nKey, v, n, map[], mapAddr, vRandom);
        LoadingAt(hashes, nKey, v, n, map[], n);
        RecordAt(hashes, nKey, v, n);
        Load(records[n], n, false);
      }
    }

    /** Unserialize, second loop: the tried entries; none is lost to a collision. */
    method LoadTried(records: seq<Record>, ghost v: Book) returns (lost: nat)
      requires Shaped() && Sound(hashes, nKey, v, 0, {}) && v.idCount >= 0 && records == RecordsBelow(v.info, v.idCount, true)
      requires v.nNew >= 0 && mapInfo == Loading(v, v.nNew, map[]) && nIdCount == |vRandom| == v.nNew
      requires Indexed(mapInfo, mapAddr, vRandom) && Tab(vvTried) == map[]
      modifies this`mapInfo, this`mapAddr, this`vRandom, this`nIdCount, vvTried
      ensures v.nTried >= 0 && lost == 0 && mapInfo == Loading(v, v.nNew + v.nTried, map[])
      ensures Indexed(mapInfo, mapAddr, vRandom) && nIdCount == |vRandom| == v.nNew + v.nTried
      ensures Tab(vvTried) == RenameTable(v, v.tTried)
    {
      hide Sound, Indexed, Numbered, Loading, IdsBelow, RecordsBelow, TriedBelow, Tab, Hashes.TriedBucket, Hashes.BucketPosition;
      lost := 0;
      ListLengths(hashes, nKey, v);
      RecordsOfIds(v.info, v.idCount, true);
      TriedBelowEnds(hashes, nKey, v);
      for n := 0 to |records|
        invariant mapInfo == Loading(v, v.nNew + n, map[]) && Indexed(mapInfo, mapAddr, vRandom)
        invariant nIdCount == |vRandom| == v.nNew + n
        invariant Tab(vvTried) == TriedBelow(v, v.nNew + n) && lost == 0
      {
        var r := records[n];
        var bucket := hashes.TriedBucket(nKey, r.service);
        var pos := hashes.BucketPosition(nKey, false, bucket, r.service);
        LoadingStep(hashes, nKey, v, nIdCount, map[]);
        LoadingFresh(hashes, nKey, v, nIdCount, map[], mapAddr, vRandom);
        LoadingAt(hashes, nKey, v, nIdCount, map[], nIdCount);
        LoadingTriedSlot(hashes, nKey, v, nIdCount);
        RecordAt(hashes, nKey, v, nIdCount);
        TabAt(vvTried, bucket, pos);
        if vvTried[bucket, pos] != -1 {
          assert false;  // the original counts a lost entry here
        }
        Load(r, nIdCount, true);
        SetSlot(vvTried, bucket, pos, nIdCount);
        nIdCount := nIdCount + 1;
      }
    }

    /** The loop over one bucket's list in Unserialize. */
    method LoadBucket(b: nat, list: seq<int>, ghost v: Book)
      requires Shaped() && Sound(hashes, nKey, v, 0, {}) && v.idCount >= 0 && b < NEW_BUCKET_COUNT
      requires list == BucketList(v, b, BUCKET_SIZE) && nNew == v.nNew && v.nNew + v.nTried >= 0
      requires Tab(vvNew) == Before(RenameTable(v, v.tNew), b, 0)
      requires mapInfo == Loading(v, v.nNew + v.nTried, Tab(vvNew)) && Indexed(mapInfo, mapAddr, vRandom)
      modifies this`mapInfo, vvNew
      ensures Tab(vvNew) == Before(RenameTable(v, v.tNew), b + 1, 0)
      ensures mapInfo == Loading(v, v.nNew + v.nTried, Tab(vvNew)) && Indexed(mapInfo, mapAddr, vRandom)
    {
      hide Sound, Indexed, Loading, IdsBelow, BucketList, Before, RenameTable, Tab, Hashes.BucketPosition;
      ghost var p := 0;
      EmptyBucketList(v, b);
      for n := 0 to |list|
        invariant 0 <= p <= BUCKET_SIZE && |BucketList(v, b, p)| == n
        invariant Tab(vvNew) == Before(RenameTable(v, v.tNew), b, p)
        invariant mapInfo == Loading(v, v.nNew + v.nTried, Tab(vvNew)) && Indexed(mapInfo, mapAddr, vRandom)
      {
        ghost var q := NextOccupied(v, b, p, BUCKET_SIZE);
        NextReference(hashes, nKey, v, b, p, q);
        var index := list[n];
        assert 0 <= index < nNew;
        var pos := hashes.BucketPosition(nKey, true, b, mapInfo[index].service);
        TabAt(vvNew, b, pos);
        assert vvNew[b, pos] == -1 && mapInfo[index].refCount < NEW_BUCKETS_PER_ADDRESS;
        LoadingFill(hashes, nKey, v, Tab(vvNew), (b as int, pos), index);
        IndexedTouch(mapInfo, mapAddr, vRandom, index, mapInfo[index].refCount + 1);
        mapInfo := mapInfo[index := mapInfo[index].(refCount := mapInfo[index].refCount + 1)];
        SetSlot(vvNew, b, pos, index);
        p := q + 1;
      }
      BucketListDone(v, b, p, BUCKET_SIZE);
      TableRange(hashes, nKey, v, b, p);
    }

    /** Unserialize, third loop: the positions in the new table. */
    method LoadBuckets(buckets: seq<seq<int>>, ghost v: Book)
      requires Shaped() && Sound(hashes, nKey, v, 0, {}) && v.idCount >= 0
      requires buckets == seq(NEW_BUCKET_COUNT, b => BucketList(v, b, BUCKET_SIZE))
      requires nNew == v.nNew && v.nNew + v.nTried >= 0 && |vRandom| == v.nNew + v.nTried && Tab(vvNew) == map[]
      requires mapInfo == Loading(v, v.nNew + v.nTried, map[]) && Indexed(mapInfo, mapAddr, vRandom)
      modifies this`mapInfo, vvNew
      ensures Tab(vvNew) == RenameTable(v, v.tNew) && mapInfo == RenameInfo(v)
      ensures mapAddr == Restored(v).addr && vRandom == Restored(v).random
    {
      hide Sound, Indexed, Loading, IdsBelow, BucketList, Before, RenameTable, RenameAddr, RenameInfo, Tab;
      TableRange(hashes, nKey, v, 0, BUCKET_SIZE);
      for b := 0 to NEW_BUCKET_COUNT
        invariant Tab(vvNew) == Before(RenameTable(v, v.tNew), b, 0)
        invariant mapInfo == Loading(v, v.nNew + v.nTried, Tab(vvNew)) && Indexed(mapInfo, mapAddr, vRandom)
      {
        LoadBucket(b, buckets[b], v);
      }
      TableRange(hashes, nKey, v, NEW_BUCKET_COUNT, 0);
      LoadingDone(hashes, nKey, v);
      RestoredIndexed(hashes, nKey, v);
      ListLengths(hashes, nKey, v);
      IndexesDetermined(mapInfo, mapAddr, vRandom, Restored(v).addr, Restored(v).random);
    }

    /** The last loop of Unserialize looks for entries in neither table, and finds none to delete. */
    method Prune() returns (lostUnk: nat)
      requires Valid()
      ensures lostUnk == 0
    {
      hide Sound, Tab, CollisionsPending;
      lostUnk := 0;
      for id := 0 to nIdCount
        invariant lostUnk == 0
      {
        if id in mapInfo { Housed(hashes, nKey, Books(), id); }
        if id in mapInfo && !mapInfo[id].inTried && mapInfo[id].refCount == 0 {
          assert false;
        }
      }
    }

    /** Loading what a consistent manager saved, into a manager without pending collisions, gives the
        same manager up to the numbering of entries; `lost` and `lostUnk` count dropped entries. */
    method Unserialize(d: Disk, scratchKey: nat, ghost v: Book) returns (lost: nat, lostUnk: nat)
      requires Shaped() && triedCollisions == {}
      requires Sound(hashes, d.key, v, 0, {}) && v.idCount >= 0 && d == Saved(d.key, v)
      modifies this, vvNew, vvTried
      ensures Valid() && nKey == d.key && lost == 0 && lostUnk == 0
      ensures Books() == Restored(v)
    {
      hide Sound, Indexed, Loading, IdsBelow, RecordsBelow, BucketList, RenameTable, RenameAddr, RenameInfo, Tab;
      Clear(scratchKey);
      TablesFit(hashes, d.key, v);
      assert d.keySize == 32;
      nKey, nNew, nTried := d.key, d.nNew, d.nTried;
      var nUBuckets := if d.version != 0 then FlipBit30(d.nUBuckets) else d.nUBuckets;
      assert nNew <= NEW_BUCKET_COUNT * BUCKET_SIZE && nTried <= TRIED_BUCKET_COUNT * BUCKET_SIZE;
      assert d.version == 1 && nUBuckets == NEW_BUCKET_COUNT;
      LoadNew(d.newRecords, v);
      nIdCount := nNew;
      lost := LoadTried(d.triedRecords, v);
      nTried := nTried - lost;
      LoadBuckets(d.buckets, v);
      ListLengths(hashes, nKey, v);
      RestoredSound(hashes, nKey, v);
      assert Books() == Restored(v);
      lostUnk := Prune();
    }

    /** Every run of operations keeps the manager valid; no assert of the original can fire in it. */
    method Run(ops: seq<Op>)
      requires Valid()
      modifies this, vvNew, vvTried
      ensures Valid()
    {
      hide Sound, Tab, CollisionsPending;
      for i := 0 to |ops|
        invariant Valid()
      {
        match ops[i] {
          case AddOp(s, services, time, source, penalty, now, draw) =>
            var _ := Add(s, services, time, source, penalty, now, draw);
          case GoodOp(s, testBeforeEvict, time, start) => Good(s, testBeforeEvict, time, start);
          case AttemptOp(s, countFailure, time) => Attempt(s, countFailure, time);
          case ConnectedOp(s, time) => Connected(s, time);
          case SetServicesOp(s, services) => SetServices(s, services);
          case GetAddrOp(now, pick) => var _ := GetAddr(now, pick);
          case ResolveOp(now, start) => ghost var order, states := ResolveCollisions(now, start);
          case SelectCollisionOp => var _ := SelectTriedCollision();
        }
      }
    }
  }
  /** The first failed attempt on an address that a new manager has heard of is counted. */
  method FirstFailure(hashes: Hashes, key: nat, s: Service, services: set<nat>, time: int, source: NetAddr, now: int)
    returns (m: AddrMan)
    requires hashes.routable(s.ip)
    ensures m.Valid() && m.Knows(s) && m.mapInfo[m.mapAddr[s.ip]].attempts == 1
  {
    hide Sound, Tab, Traced, Hashes.NewSlot, AddrMan.CollisionsPending;
    m := new AddrMan(hashes, key);
    var _ := m.Add(s, services, time, source, 0, now, 0);
    TracedAt(map[0 := Unplaced(s, services, Max0(time), source)], m.mapInfo, 0);
    m.Attempt(s, true, now);
  }
}
