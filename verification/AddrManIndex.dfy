/** The data of the address manager (src/addrman.h) and the parts of its structural invariant, each a
    predicate on plain maps with lemmas saying how the elementary updates keep it. */
module AddrManIndex {

  const TRIED_BUCKET_COUNT := 256
  const NEW_BUCKET_COUNT := 1024
  const BUCKET_SIZE := 64
  const TRIED_BUCKETS_PER_GROUP := 8
  const NEW_BUCKETS_PER_SOURCE_GROUP := 64
  const NEW_BUCKETS_PER_ADDRESS := 8

  type NetAddr = nat
  type Id = int

  /** CService: a network address with a port. */
  datatype Service = Service(ip: NetAddr, port: nat)

  datatype AddrInfo = AddrInfo(
    service: Service, services: set<nat>, time: int, source: NetAddr,
    lastTry: int, lastCountAttempt: int, lastSuccess: int, attempts: int,
    refCount: int, inTried: bool, randomPos: int)

  const HORIZON_DAYS := 30
  const RETRIES := 3
  const MAX_FAILURES := 10
  const MIN_FAIL_DAYS := 7

  /** Are the statistics of an entry bad enough for it to be dropped? */
  predicate IsTerrible(e: AddrInfo, now: int) {
    if e.lastTry != 0 && e.lastTry >= now - 60 then false
    else
      || e.time > now + 10 * 60
      || e.time == 0 || now - e.time > HORIZON_DAYS * 24 * 60 * 60
      || (e.lastSuccess == 0 && e.attempts >= RETRIES)
      || (now - e.lastSuccess > MIN_FAIL_DAYS * 24 * 60 * 60 && e.attempts >= MAX_FAILURES)
  }

  /** What hearing of a known address again does to its entry. */
  function Refresh(e: AddrInfo, services: set<nat>, time: int, penalty: int, now: int): (r: AddrInfo)
    requires penalty >= 0
    ensures r.time >= e.time && r.services >= e.services && r.services >= services
  {
    var interval := if now - time < 24 * 60 * 60 then 60 * 60 else 24 * 60 * 60;
    var t := if time != 0 && (e.time == 0 || e.time < time - interval - penalty)
             then (if time - penalty > 0 then time - penalty else 0) else e.time;
    e.(time := t, services := e.services + services)
  }

  /** The uninterpreted parts: the keyed hash, the address group and the address classes. */
  datatype Hashes = Hashes(
    cheap: seq<nat> -> nat, group: NetAddr -> nat, routable: NetAddr -> bool, valid: NetAddr -> bool)
  {
    function TriedBucket(key: nat, s: Service): (b: int)
      ensures 0 <= b < TRIED_BUCKET_COUNT
    {
      var hash1 := cheap([key, s.ip, s.port]);
      var hash2 := cheap([key, group(s.ip), hash1 % TRIED_BUCKETS_PER_GROUP]);
      hash2 % TRIED_BUCKET_COUNT
    }

    function NewBucket(key: nat, s: Service, source: NetAddr): (b: int)
      ensures 0 <= b < NEW_BUCKET_COUNT
    {
      var hash1 := cheap([key, group(s.ip), group(source)]);
      var hash2 := cheap([key, group(source), hash1 % NEW_BUCKETS_PER_SOURCE_GROUP]);
      hash2 % NEW_BUCKET_COUNT
    }

    function BucketPosition(key: nat, isNew: bool, bucket: nat, s: Service): (p: int)
      ensures 0 <= p < BUCKET_SIZE
    {
      cheap([key, if isNew then 78 else 75, bucket, s.ip, s.port]) % BUCKET_SIZE
    }

    function TriedSlot(key: nat, s: Service): Slot {
      var b := TriedBucket(key, s);
      (b, BucketPosition(key, false, b, s))
    }

    function NewSlot(key: nat, s: Service, source: NetAddr): Slot {
      var b := NewBucket(key, s, source);
      (b, BucketPosition(key, true, b, s))
    }
  }

  type Slot = (int, int)
  type Table = map<Slot, Id>
  type Infos = map<Id, AddrInfo>

  // ---------------------------------------------------------------------------------------------
  // The invariant, part by part
  // ---------------------------------------------------------------------------------------------

  /** mapInfo and vRandom are inverse to each other, and so are mapInfo and mapAddr. */
  ghost predicate Indexed(info: Infos, addr: map<NetAddr, Id>, random: seq<Id>) {
    && (forall id | id in info ::
          && 0 <= info[id].randomPos < |random| && random[info[id].randomPos] == id
          && info[id].service.ip in addr && addr[info[id].service.ip] == id)
    && (forall i | 0 <= i < |random| :: random[i] in info && info[random[i]].randomPos == i)
    && (forall a | a in addr :: addr[a] in info && info[addr[a]].service.ip == a)
  }

  /** The slots of a table that hold an id. */
  ghost function Slots(t: Table, id: Id): set<Slot> {
    set s | s in t && t[s] == id
  }

  /** Every new slot holds a known id in the position its hash dictates, and every reference count is
      the number of slots. */
  ghost predicate NewPlaced(h: Hashes, key: nat, info: Infos, t: Table) {
    && (forall s | s in t ::
          && 0 <= s.0 < NEW_BUCKET_COUNT && t[s] in info
          && s.1 == h.BucketPosition(key, true, s.0, info[t[s]].service))
    && (forall id | id in info :: info[id].refCount == |Slots(t, id)|)
  }

  /** Tried slots and tried entries determine each other, and no tried entry is still in a new slot. */
  ghost predicate TriedPlaced(h: Hashes, key: nat, info: Infos, t: Table) {
    && (forall s | s in t ::
          && 0 <= s.0 < TRIED_BUCKET_COUNT && t[s] in info && info[t[s]].inTried
          && s == h.TriedSlot(key, info[t[s]].service))
    && (forall id | id in info && info[id].inTried ::
          && info[id].refCount == 0
          && h.TriedSlot(key, info[id].service) in t && t[h.TriedSlot(key, info[id].service)] == id)
  }

  ghost function NewIds(info: Infos): set<Id> { set id | id in info && info[id].refCount > 0 }

  ghost function TriedIds(info: Infos): set<Id> { set id | id in info && info[id].inTried }

  /** Entries in neither table: only the one an operation is working on. */
  ghost function Homeless(info: Infos): set<Id> {
    set id | id in info && info[id].refCount == 0 && !info[id].inTried
  }

  ghost predicate Bounded(info: Infos, idCount: int) {
    forall id | id in info :: 0 <= id < idCount && info[id].refCount <= NEW_BUCKETS_PER_ADDRESS
  }

  /** The same entries, up to bookkeeping that the tables do not depend on. */
  ghost predicate SamePlacement(info: Infos, info': Infos) {
    && info.Keys == info'.Keys
    && forall id | id in info ::
         && info'[id].service == info[id].service && info'[id].refCount == info[id].refCount
         && info'[id].inTried == info[id].inTried
  }

  /** The same entries except for their places in vRandom. */
  ghost predicate SameButPos(info: Infos, info': Infos) {
    && info.Keys == info'.Keys
    && forall id | id in info :: info'[id] == info[id].(randomPos := info'[id].randomPos)
  }

  lemma SameButPosPlacement(info: Infos, info': Infos)
    requires SameButPos(info, info')
    ensures SamePlacement(info, info')
  {
  }

  // ---------------------------------------------------------------------------------------------
  // Elementary updates
  // ---------------------------------------------------------------------------------------------

  lemma SamePlacementKeepsNew(h: Hashes, key: nat, info: Infos, info': Infos, t: Table)
    requires SamePlacement(info, info') && NewPlaced(h, key, info, t)
    ensures NewPlaced(h, key, info', t)
  {
    forall s | s in t
      ensures 0 <= s.0 < NEW_BUCKET_COUNT && t[s] in info'
              && s.1 == h.BucketPosition(key, true, s.0, info'[t[s]].service)
    {
      var id := t[s];
      assert id in info && info'[id].service == info[id].service;
    }
  }

  lemma SamePlacementKeepsTried(h: Hashes, key: nat, info: Infos, info': Infos, t: Table)
    requires SamePlacement(info, info') && TriedPlaced(h, key, info, t)
    ensures TriedPlaced(h, key, info', t)
  {
    forall s | s in t
      ensures 0 <= s.0 < TRIED_BUCKET_COUNT && t[s] in info' && info'[t[s]].inTried
              && s == h.TriedSlot(key, info'[t[s]].service)
    {
      var id := t[s];
      assert id in info && info'[id].service == info[id].service;
    }
  }

  lemma SamePlacementKeepsCounts(info: Infos, info': Infos, idCount: int)
    requires SamePlacement(info, info')
    ensures NewIds(info') == NewIds(info) && TriedIds(info') == TriedIds(info)
    ensures Homeless(info') == Homeless(info)
    ensures Bounded(info, idCount) ==> Bounded(info', idCount)
  {
    forall id
      ensures id in NewIds(info') <==> id in NewIds(info)
      ensures id in TriedIds(info') <==> id in TriedIds(info)
      ensures id in Homeless(info') <==> id in Homeless(info)
    {
      assert id in info <==> id in info';
    }
  }

  /** SwapRandom. */
  ghost function Swapped(info: Infos, random: seq<Id>, i: int, j: int): Infos
    requires 0 <= i < |random| && 0 <= j < |random| && random[i] in info && random[j] in info
  {
    if i == j then info
    else
      var id1, id2 := random[i], random[j];
      var info1 := info[id1 := info[id1].(randomPos := j)];
      info1[id2 := info1[id2].(randomPos := i)]
  }

  lemma SwapIndexed(info: Infos, addr: map<NetAddr, Id>, random: seq<Id>, i: int, j: int)
    requires Indexed(info, addr, random) && 0 <= i < |random| && 0 <= j < |random|
    ensures Indexed(Swapped(info, random, i, j), addr, random[i := random[j]][j := random[i]])
    ensures SameButPos(info, Swapped(info, random, i, j))
  {
    var info', random' := Swapped(info, random, i, j), random[i := random[j]][j := random[i]];
    assert random[i] == random[j] <==> i == j by {
      assert info[random[i]].randomPos == i && info[random[j]].randomPos == j;
    }
    forall id | id in info'
      ensures 0 <= info'[id].randomPos < |random'| && random'[info'[id].randomPos] == id
      ensures info'[id].service.ip in addr && addr[info'[id].service.ip] == id
    {
      assert random[info[id].randomPos] == id;
    }
    forall k | 0 <= k < |random'| ensures random'[k] in info' && info'[random'[k]].randomPos == k {
      assert info[random[k]].randomPos == k;
    }
  }

  /** Delete, once the entry is last in vRandom. */
  lemma PopIndexed(info: Infos, addr: map<NetAddr, Id>, random: seq<Id>, id: Id)
    requires Indexed(info, addr, random) && |random| > 0 && random[|random| - 1] == id
    ensures id in info
    ensures Indexed(info - {id}, addr - {info[id].service.ip}, random[..|random| - 1])
  {
    assert info[random[|random| - 1]].randomPos == |random| - 1;
  }

  /** Create. */
  lemma PushIndexed(info: Infos, addr: map<NetAddr, Id>, random: seq<Id>, id: Id, e: AddrInfo)
    requires Indexed(info, addr, random) && id !in info && e.service.ip !in addr && e.randomPos == |random|
    ensures Indexed(info[id := e], addr[e.service.ip := id], random + [id])
  {
  }

  /** An entry of count zero can be added or removed without disturbing the tables. */
  lemma HomelessEntry(h: Hashes, key: nat, info: Infos, tNew: Table, tTried: Table, id: Id)
    requires id in info && info[id].refCount == 0 && !info[id].inTried
    requires forall s | s in tNew :: tNew[s] != id
    ensures NewPlaced(h, key, info, tNew) <==> NewPlaced(h, key, info - {id}, tNew)
    ensures TriedPlaced(h, key, info, tTried) <==> TriedPlaced(h, key, info - {id}, tTried)
  {
    assert Slots(tNew, id) == {};
    var less := info - {id};
    if TriedPlaced(h, key, less, tTried) {
      forall x | x in info && info[x].inTried
        ensures info[x].refCount == 0 && h.TriedSlot(key, info[x].service) in tTried
                && tTried[h.TriedSlot(key, info[x].service)] == x
      {
        assert x in less && less[x] == info[x];
      }
    }
  }

  lemma HomelessCounts(info: Infos, id: Id)
    requires id in info && info[id].refCount == 0 && !info[id].inTried
    ensures NewIds(info - {id}) == NewIds(info) && TriedIds(info - {id}) == TriedIds(info)
    ensures Homeless(info - {id}) == Homeless(info) - {id}
  {
  }

  function One(b: bool): nat { if b then 1 else 0 }

  lemma RegroupIds(info: Infos, id: Id, e: AddrInfo)
    requires id in info
    ensures NewIds(info[id := e]) == if e.refCount > 0 then NewIds(info) + {id} else NewIds(info) - {id}
    ensures TriedIds(info[id := e]) == if e.inTried then TriedIds(info) + {id} else TriedIds(info) - {id}
    ensures Homeless(info[id := e])
            == if e.refCount == 0 && !e.inTried then Homeless(info) + {id} else Homeless(info) - {id}
    ensures id in NewIds(info) <==> info[id].refCount > 0
    ensures id in TriedIds(info) <==> info[id].inTried
  {
  }

  /** How the counters have to move when one entry is rewritten. */
  lemma Recount(info: Infos, id: Id, e: AddrInfo)
    requires id in info
    ensures |NewIds(info[id := e])| == |NewIds(info)| + One(e.refCount > 0) - One(info[id].refCount > 0)
    ensures |TriedIds(info[id := e])| == |TriedIds(info)| + One(e.inTried) - One(info[id].inTried)
    ensures Homeless(info[id := e])
            == if e.refCount == 0 && !e.inTried then Homeless(info) + {id} else Homeless(info) - {id}
  {
    RegroupIds(info, id, e);
    hide NewIds, TriedIds, Homeless;
  }

  /** One new slot is emptied and the count of its occupant goes down. */
  lemma EmptySlot(h: Hashes, key: nat, info: Infos, t: Table, s: Slot)
    requires NewPlaced(h, key, info, t) && s in t
    ensures t[s] in info && info[t[s]].refCount > 0
    ensures NewPlaced(h, key, info[t[s] := info[t[s]].(refCount := info[t[s]].refCount - 1)], t - {s})
  {
    var id := t[s];
    assert s in Slots(t, id);
    assert Slots(t, id) == Slots(t - {s}, id) + {s};
    forall other | other in info && other != id ensures Slots(t - {s}, other) == Slots(t, other) {}
  }

  /** One empty new slot gets an occupant and the occupant's count goes up. */
  lemma FillSlot(h: Hashes, key: nat, info: Infos, t: Table, s: Slot, id: Id)
    requires NewPlaced(h, key, info, t) && s !in t && id in info && 0 <= s.0 < NEW_BUCKET_COUNT
    requires s.1 == h.BucketPosition(key, true, s.0, info[id].service)
    ensures NewPlaced(h, key, info[id := info[id].(refCount := info[id].refCount + 1)], t[s := id])
  {
    var t' := t[s := id];
    assert Slots(t', id) == Slots(t, id) + {s};
    forall other | other in info && other != id ensures Slots(t', other) == Slots(t, other) {}
    assert t' - {s} == t;
  }

  /** Changing the tried table where only `id` is concerned. */
  lemma SetTried(h: Hashes, key: nat, info: Infos, t: Table, id: Id)
    requires TriedPlaced(h, key, info, t) && id in info && info[id].refCount == 0 && !info[id].inTried
    requires h.TriedSlot(key, info[id].service) !in t
    ensures TriedPlaced(h, key, info[id := info[id].(inTried := true)], t[h.TriedSlot(key, info[id].service) := id])
  {
  }

  lemma UnsetTried(h: Hashes, key: nat, info: Infos, t: Table, s: Slot)
    requires TriedPlaced(h, key, info, t) && s in t
    ensures t[s] in info && info[t[s]].inTried && info[t[s]].refCount == 0
    ensures TriedPlaced(h, key, info[t[s] := info[t[s]].(inTried := false)], t - {s})
  {
    var id := t[s];
    assert id in info && info[id].inTried;
    var info' := info[id := info[id].(inTried := false)];
    forall x | x in info' && info'[x].inTried
      ensures info'[x].refCount == 0 && h.TriedSlot(key, info'[x].service) in t - {s}
              && (t - {s})[h.TriedSlot(key, info'[x].service)] == x
    {
      assert x != id && x in info && info[x].inTried;
    }
  }

  // ---------------------------------------------------------------------------------------------
  // The whole structure
  // ---------------------------------------------------------------------------------------------

  /** All indexes and counters of the address manager. */
  datatype Book = Book(
    info: Infos, addr: map<NetAddr, Id>, random: seq<Id>, tNew: Table, tTried: Table,
    idCount: int, nNew: int, nTried: int)

  /** The structural invariant, allowing for an operation in progress: `homeless` entries are in
      neither table, and nNew runs `ahead` of the number of entries in the new table. */
  ghost predicate Sound(h: Hashes, key: nat, v: Book, ahead: int, homeless: set<Id>) {
    && Indexed(v.info, v.addr, v.random)
    && NewPlaced(h, key, v.info, v.tNew)
    && TriedPlaced(h, key, v.info, v.tTried)
    && v.nNew == |NewIds(v.info)| + ahead && v.nTried == |TriedIds(v.info)|
    && Homeless(v.info) == homeless
    && Bounded(v.info, v.idCount)
  }

  ghost function Swap(v: Book, i: int, j: int): Book
    requires 0 <= i < |v.random| && 0 <= j < |v.random| && v.random[i] in v.info && v.random[j] in v.info
  {
    v.(info := Swapped(v.info, v.random, i, j), random := v.random[i := v.random[j]][j := v.random[i]])
  }

  lemma SwapSound(h: Hashes, key: nat, v: Book, ahead: int, homeless: set<Id>, i: int, j: int)
    requires Sound(h, key, v, ahead, homeless) && 0 <= i < |v.random| && 0 <= j < |v.random|
    ensures v.random[i] in v.info && v.random[j] in v.info
    ensures Sound(h, key, Swap(v, i, j), ahead, homeless)
    ensures SameButPos(v.info, Swap(v, i, j).info)
  {
    hide NewPlaced, TriedPlaced, Bounded, NewIds, TriedIds, Homeless;
    SwapIndexed(v.info, v.addr, v.random, i, j);
    var v' := Swap(v, i, j);
    BookkeepingSound(h, key, v, v', ahead, homeless);
  }

  /** Bookkeeping changes that keep the indexes keep everything. */
  lemma BookkeepingSound(h: Hashes, key: nat, v: Book, v': Book, ahead: int, homeless: set<Id>)
    requires Sound(h, key, v, ahead, homeless)
    requires SamePlacement(v.info, v'.info) && v' == v.(info := v'.info, random := v'.random)
    requires Indexed(v'.info, v.addr, v'.random)
    ensures Sound(h, key, v', ahead, homeless)
  {
    hide Indexed, NewPlaced, TriedPlaced, Bounded, NewIds, TriedIds, Homeless, SamePlacement;
    SamePlacementKeepsNew(h, key, v.info, v'.info, v.tNew);
    SamePlacementKeepsTried(h, key, v.info, v'.info, v.tTried);
    SamePlacementKeepsCounts(v.info, v'.info, v.idCount);
  }

  lemma PopSound(h: Hashes, key: nat, v: Book, ahead: int, homeless: set<Id>, id: Id)
    requires Sound(h, key, v, ahead, homeless) && id in homeless
    requires |v.random| > 0 && v.random[|v.random| - 1] == id
    ensures id in v.info
    ensures Sound(h, key, v.(info := v.info - {id}, addr := v.addr - {v.info[id].service.ip},
                             random := v.random[..|v.random| - 1], nNew := v.nNew - 1),
                  ahead - 1, homeless - {id})
  {
    HomelessFree(h, key, v, ahead, homeless, id);
    hide Indexed, NewPlaced, TriedPlaced, NewIds, TriedIds, Homeless;
    HomelessEntry(h, key, v.info, v.tNew, v.tTried, id);
    HomelessCounts(v.info, id);
    PopIndexed(v.info, v.addr, v.random, id);
  }

  /** What being homeless means: known, not in tried, count zero, and in no new slot. */
  lemma HomelessFree(h: Hashes, key: nat, v: Book, ahead: int, homeless: set<Id>, id: Id)
    requires Sound(h, key, v, ahead, homeless) && id in homeless
    ensures id in v.info && !v.info[id].inTried && v.info[id].refCount == 0
    ensures forall s | s in v.tNew :: v.tNew[s] != id
    ensures 0 <= v.info[id].randomPos < |v.random| && v.random[v.info[id].randomPos] == id
  {
    forall s | s in v.tNew ensures v.tNew[s] != id {
      assert s in Slots(v.tNew, id) <==> v.tNew[s] == id;
    }
  }

  lemma PushSound(h: Hashes, key: nat, v: Book, ahead: int, homeless: set<Id>, e: AddrInfo)
    requires Sound(h, key, v, ahead, homeless) && v.idCount >= 0
    requires e.service.ip !in v.addr && e.randomPos == |v.random| && e.refCount == 0 && !e.inTried
    ensures v.idCount !in v.info
    ensures Sound(h, key, v.(info := v.info[v.idCount := e], addr := v.addr[e.service.ip := v.idCount],
                             random := v.random + [v.idCount], idCount := v.idCount + 1),
                  ahead, homeless + {v.idCount})
  {
    var id := v.idCount;
    var info' := v.info[id := e];
    assert id !in v.info;
    assert forall s | s in v.tNew :: v.tNew[s] != id;
    assert info' - {id} == v.info;
    hide Indexed, NewPlaced, TriedPlaced, NewIds, TriedIds;
    PushIndexed(v.info, v.addr, v.random, id, e);
    HomelessEntry(h, key, info', v.tNew, v.tTried, id);
    HomelessCounts(info', id);
  }

  lemma EmptySound(h: Hashes, key: nat, v: Book, ahead: int, homeless: set<Id>, s: Slot)
    requires Sound(h, key, v, ahead, homeless) && s in v.tNew
    ensures v.tNew[s] in v.info && v.info[v.tNew[s]].refCount > 0 && !v.info[v.tNew[s]].inTried
    ensures var id := v.tNew[s]; var n := v.info[id].refCount - 1;
      Sound(h, key, v.(info := v.info[id := v.info[id].(refCount := n)], tNew := v.tNew - {s}),
            ahead + One(n == 0), if n == 0 then homeless + {id} else homeless)
  {
    EmptySlot(h, key, v.info, v.tNew, s);
    var id := v.tNew[s];
    var e := v.info[id].(refCount := v.info[id].refCount - 1);
    RewriteSound(h, key, v, ahead, homeless, id, e);
  }

  /** Rewriting the count of one entry outside tried keeps everything but the new table. */
  lemma RewriteSound(h: Hashes, key: nat, v: Book, ahead: int, homeless: set<Id>, id: Id, e: AddrInfo)
    requires Sound(h, key, v, ahead, homeless) && id in v.info && !v.info[id].inTried
    requires e == v.info[id].(refCount := e.refCount) && 0 <= e.refCount <= NEW_BUCKETS_PER_ADDRESS
    ensures var info' := v.info[id := e];
      && Indexed(info', v.addr, v.random) && TriedPlaced(h, key, info', v.tTried)
      && Bounded(info', v.idCount) && |TriedIds(info')| == |TriedIds(v.info)|
      && |NewIds(info')| == |NewIds(v.info)| + One(e.refCount > 0) - One(v.info[id].refCount > 0)
      && Homeless(info') == if e.refCount == 0 then homeless + {id} else homeless - {id}
  {
    hide NewPlaced, NewIds, TriedIds, Homeless;
    Recount(v.info, id, e);
  }

  lemma FillSound(h: Hashes, key: nat, v: Book, ahead: int, homeless: set<Id>, s: Slot, id: Id)
    requires Sound(h, key, v, ahead, homeless) && id in v.info && s !in v.tNew
    requires !v.info[id].inTried && v.info[id].refCount < NEW_BUCKETS_PER_ADDRESS
    requires 0 <= s.0 < NEW_BUCKET_COUNT && s.1 == h.BucketPosition(key, true, s.0, v.info[id].service)
    ensures v.info[id].refCount >= 0
    ensures Sound(h, key,
                  v.(info := v.info[id := v.info[id].(refCount := v.info[id].refCount + 1)], tNew := v.tNew[s := id]),
                  ahead - One(v.info[id].refCount == 0), homeless - {id})
  {
    FillSlot(h, key, v.info, v.tNew, s, id);
    var e := v.info[id].(refCount := v.info[id].refCount + 1);
    RewriteSound(h, key, v, ahead, homeless, id, e);
  }

  lemma SetTriedSound(h: Hashes, key: nat, v: Book, ahead: int, homeless: set<Id>, id: Id)
    requires Sound(h, key, v, ahead, homeless) && id in homeless && id in v.info
    requires h.TriedSlot(key, v.info[id].service) !in v.tTried
    ensures Sound(h, key,
                  v.(info := v.info[id := v.info[id].(inTried := true)],
                     tTried := v.tTried[h.TriedSlot(key, v.info[id].service) := id], nTried := v.nTried + 1),
                  ahead, homeless - {id})
  {
    HomelessFree(h, key, v, ahead, homeless, id);
    var e := v.info[id].(inTried := true);
    SetTried(h, key, v.info, v.tTried, id);
    RetriedSound(h, key, v, ahead, homeless, id, e);
  }

  lemma UnsetTriedSound(h: Hashes, key: nat, v: Book, ahead: int, homeless: set<Id>, s: Slot)
    requires Sound(h, key, v, ahead, homeless) && s in v.tTried
    ensures v.tTried[s] in v.info && v.tTried[s] !in homeless
    ensures var id := v.tTried[s];
      Sound(h, key, v.(info := v.info[id := v.info[id].(inTried := false)], tTried := v.tTried - {s}, nTried := v.nTried - 1),
            ahead, homeless + {id})
  {
    var id := v.tTried[s];
    UnsetTried(h, key, v.info, v.tTried, s);
    var e := v.info[id].(inTried := false);
    RetriedSound(h, key, v, ahead, homeless, id, e);
  }

  /** Flipping the tried flag of an entry of count zero keeps everything but the tried table. */
  lemma RetriedSound(h: Hashes, key: nat, v: Book, ahead: int, homeless: set<Id>, id: Id, e: AddrInfo)
    requires Sound(h, key, v, ahead, homeless) && id in v.info && v.info[id].refCount == 0
    requires e == v.info[id].(inTried := e.inTried)
    ensures var info' := v.info[id := e];
      && Indexed(info', v.addr, v.random) && NewPlaced(h, key, info', v.tNew)
      && Bounded(info', v.idCount) && |NewIds(info')| == |NewIds(v.info)|
      && |TriedIds(info')| == |TriedIds(v.info)| + One(e.inTried) - One(v.info[id].inTried)
      && Homeless(info') == if !e.inTried then homeless + {id} else homeless - {id}
  {
    hide TriedPlaced, NewIds, TriedIds, Homeless;
    Recount(v.info, id, e);
  }

  /** Where the entries of a sound book are: in exactly one table. */
  lemma Housed(h: Hashes, key: nat, v: Book, id: Id)
    requires Sound(h, key, v, 0, {}) && id in v.info
    ensures v.info[id].inTried <==> v.info[id].refCount == 0
    ensures 0 <= v.info[id].refCount <= NEW_BUCKETS_PER_ADDRESS && 0 <= id < v.idCount
    ensures v.info[id].refCount == |Slots(v.tNew, id)|
    ensures v.info[id].service.ip in v.addr && v.addr[v.info[id].service.ip] == id
    ensures 0 <= v.info[id].randomPos < |v.random| && v.random[v.info[id].randomPos] == id
    ensures v.info[id].inTried ==>
      h.TriedSlot(key, v.info[id].service) in v.tTried && v.tTried[h.TriedSlot(key, v.info[id].service)] == id
  {
    assert id !in Homeless(v.info);
  }

  lemma FindNewSlot(h: Hashes, key: nat, v: Book, id: Id) returns (s: Slot)
    requires Sound(h, key, v, 0, {}) && id in v.info && !v.info[id].inTried
    ensures s in v.tNew && v.tNew[s] == id
    ensures 0 <= s.0 < NEW_BUCKET_COUNT && s.1 == h.BucketPosition(key, true, s.0, v.info[id].service)
  {
    Housed(h, key, v, id);
    s :| s in Slots(v.tNew, id);
  }

  lemma TriedOccupant(h: Hashes, key: nat, v: Book, ahead: int, homeless: set<Id>, s: Slot)
    requires Sound(h, key, v, ahead, homeless) && s in v.tTried
    ensures v.tTried[s] in v.info && v.info[v.tTried[s]].inTried && v.tTried[s] !in homeless
  {
  }

  lemma NewOccupant(h: Hashes, key: nat, v: Book, ahead: int, homeless: set<Id>, s: Slot)
    requires Sound(h, key, v, ahead, homeless) && s in v.tNew
    ensures v.tNew[s] in v.info && v.info[v.tNew[s]].refCount > 0 && v.tNew[s] !in homeless
    ensures s.1 == h.BucketPosition(key, true, s.0, v.info[v.tNew[s]].service)
    ensures v.info[v.tNew[s]].refCount <= NEW_BUCKETS_PER_ADDRESS
  {
    assert s in Slots(v.tNew, v.tNew[s]);
  }

  lemma KnownAddress(h: Hashes, key: nat, v: Book, a: NetAddr)
    requires Sound(h, key, v, 0, {}) && a in v.addr
    ensures v.addr[a] in v.info && v.info[v.addr[a]].service.ip == a
  {
  }

  /** Entries that survive keep everything but their placement. */
  ghost predicate Traced(info: Infos, info': Infos) {
    forall id | id in info' :: id in info
      && info'[id] == info[id].(refCount := info'[id].refCount, inTried := info'[id].inTried, randomPos := info'[id].randomPos)
  }

  /** The new table once an entry has moved to tried: it is gone from there, and the tried entry it evicted, if
      any, is back in the slot of its own source. */
  ghost function NewAfter(h: Hashes, key: nat, v: Book, id: Id): Table
    requires id in v.info
  {
    var rest, s := v.tNew - Slots(v.tNew, id), h.TriedSlot(key, v.info[id].service);
    if s in v.tTried && v.tTried[s] in v.info then
      rest[h.NewSlot(key, v.info[v.tTried[s]].service, v.info[v.tTried[s]].source) := v.tTried[s]]
    else rest
  }

  ghost predicate MovesToTried(h: Hashes, key: nat, v: Book, id: Id, v': Book)
    requires id in v.info
  {
    && v'.tTried == v.tTried[h.TriedSlot(key, v.info[id].service) := id] && v'.tNew == NewAfter(h, key, v, id)
    && Traced(v.info, v'.info) && id in v'.info && v'.info[id].inTried
  }

  /** An entry with the statistics of a success just now. */
  ghost function Marked(info: Infos, id: Id, time: int): Infos
    requires id in info
  {
    info[id := info[id].(lastSuccess := time, lastTry := time, attempts := 0)]
  }

  /** A success is noted, and the entry is moved to tried unless it is there. */
  ghost predicate BecomesGood(h: Hashes, key: nat, v: Book, id: Id, time: int, v': Book)
    requires id in v.info
  {
    if v.info[id].inTried then v'.info == Marked(v.info, id, time) && v'.tNew == v.tNew && v'.tTried == v.tTried
    else MovesToTried(h, key, v.(info := Marked(v.info, id, time)), id, v')
  }

  /** Tables and statistics determine a sound book, but for the order of vRandom: nothing else can change. */
  lemma Determined(h: Hashes, key: nat, info: Infos, v: Book, v': Book)
    requires Sound(h, key, v, 0, {}) && Sound(h, key, v', 0, {}) && v.tNew == v'.tNew && v.tTried == v'.tTried
    requires Traced(info, v.info) && Traced(info, v'.info)
    ensures SameButPos(v.info, v'.info) && v.addr == v'.addr && v.nNew == v'.nNew && v.nTried == v'.nTried
  {
    hide Sound, Traced;
    SurvivorsDetermined(h, key, info, v, v');
    SurvivorsDetermined(h, key, info, v', v);
    forall id ensures id in v.info.Keys <==> id in v'.info.Keys {}
    SameIndex(h, key, v, v');
    forall id ensures id in NewIds(v.info) <==> id in NewIds(v'.info) {}
    forall id ensures id in TriedIds(v.info) <==> id in TriedIds(v'.info) {}
    assert NewIds(v.info) == NewIds(v'.info) && TriedIds(v.info) == TriedIds(v'.info);
    SoundCounts(h, key, v);
    SoundCounts(h, key, v');
  }

  /** An entry of a sound book is in one of its tables, so the other book has it too. */
  lemma SurvivorsDetermined(h: Hashes, key: nat, info: Infos, v: Book, v': Book)
    requires Sound(h, key, v, 0, {}) && Sound(h, key, v', 0, {}) && v.tNew == v'.tNew && v.tTried == v'.tTried
    requires Traced(info, v.info) && Traced(info, v'.info)
    ensures forall id | id in v.info :: id in v'.info && v'.info[id] == v.info[id].(randomPos := v'.info[id].randomPos)
  {
    forall id | id in v.info ensures id in v'.info && v'.info[id] == v.info[id].(randomPos := v'.info[id].randomPos) {
      Housed(h, key, v, id);
      if v.info[id].inTried {
        TriedOccupant(h, key, v', 0, {}, h.TriedSlot(key, v.info[id].service));
      } else {
        var s := FindNewSlot(h, key, v, id);
        NewOccupant(h, key, v', 0, {}, s);
      }
      Housed(h, key, v', id);
    }
  }

  lemma SameIndex(h: Hashes, key: nat, v: Book, v': Book)
    requires Sound(h, key, v, 0, {}) && Sound(h, key, v', 0, {}) && SameButPos(v.info, v'.info)
    ensures v.addr == v'.addr
  {
    forall a | a in v.addr ensures a in v'.addr && v'.addr[a] == v.addr[a] {
      var x := v.addr[a];
      assert x in v.info.Keys && v'.info[x] == v.info[x].(randomPos := v'.info[x].randomPos);
    }
    forall a | a in v'.addr ensures a in v.addr {
      var x := v'.addr[a];
      assert x in v'.info.Keys && v'.info[x] == v.info[x].(randomPos := v'.info[x].randomPos);
    }
  }

  lemma SoundCounts(h: Hashes, key: nat, v: Book)
    requires Sound(h, key, v, 0, {})
    ensures v.nNew == |NewIds(v.info)| && v.nTried == |TriedIds(v.info)|
  {
  }

  /** Every entry but `x` survives, changed at most in its place in vRandom. */
  ghost predicate KeptBut(info: Infos, info': Infos, x: Id) {
    forall id | id in info && id != x :: id in info' && info'[id] == info[id].(randomPos := info'[id].randomPos)
  }

  /** The effect of ClearNew on an entry: its count goes down, and at zero it is deleted. */
  lemma ClearedEffect(info: Infos, info': Infos, id: Id, n: int)
    requires id in info && SameButPos(info[id := info[id].(refCount := n)] - {id}, info')
    ensures Traced(info, info') && KeptBut(info, info', id)
  {
    var mid := info[id := info[id].(refCount := n)] - {id};
    assert forall x | x in mid :: x in info && mid[x] == info[x];
  }

  lemma LoweredEffect(info: Infos, id: Id, n: int)
    requires id in info
    ensures Traced(info, info[id := info[id].(refCount := n)]) && KeptBut(info, info[id := info[id].(refCount := n)], id)
  {
  }

  lemma LoweredEffectNone(info: Infos)
    ensures Traced(info, info) && forall x :: KeptBut(info, info, x)
  {
  }

  lemma RemoveSame(info: Infos, info': Infos, id: Id)
    requires SameButPos(info, info')
    ensures SameButPos(info - {id}, info' - {id})
  {
  }

  /** The slots of an id in the buckets below `bucket`. */
  ghost function SlotsBelow(t: Table, id: Id, bucket: int): set<Slot> {
    set s | s in t && t[s] == id && s.0 < bucket
  }

  lemma SlotsBelowEnds(h: Hashes, key: nat, v: Book, ahead: int, homeless: set<Id>, id: Id)
    requires Sound(h, key, v, ahead, homeless)
    ensures SlotsBelow(v.tNew, id, 0) == {} && SlotsBelow(v.tNew, id, NEW_BUCKET_COUNT) == Slots(v.tNew, id)
  {
  }

  /** An entry has at most one slot in each bucket: the one its hash dictates. */
  lemma SlotsBelowStep(h: Hashes, key: nat, v: Book, ahead: int, homeless: set<Id>, id: Id, bucket: int)
    requires Sound(h, key, v, ahead, homeless) && id in v.info && 0 <= bucket < NEW_BUCKET_COUNT
    ensures var s := (bucket, h.BucketPosition(key, true, bucket, v.info[id].service));
      SlotsBelow(v.tNew, id, bucket + 1)
      == if s in v.tNew && v.tNew[s] == id then SlotsBelow(v.tNew, id, bucket) + {s} else SlotsBelow(v.tNew, id, bucket)
  {
    var s := (bucket, h.BucketPosition(key, true, bucket, v.info[id].service));
    forall x | x in v.tNew && v.tNew[x] == id && x.0 == bucket ensures x == s {}
  }

  /** An entry without slots has count zero. */
  lemma NoSlots(h: Hashes, key: nat, v: Book, ahead: int, homeless: set<Id>, id: Id)
    requires Sound(h, key, v, ahead, homeless) && id in v.info && Slots(v.tNew, id) == {}
    ensures v.info[id].refCount == 0
  {
  }

  lemma SlotsLeft(t: Table, id: Id)
    ensures Slots(t - Slots(t, id), id) == {}
    ensures forall other | other != id :: Slots(t - Slots(t, id), other) == Slots(t, other)
  {
  }

  /** nNew is only bookkeeping. */
  lemma Lag(h: Hashes, key: nat, v: Book, ahead: int, homeless: set<Id>, d: int)
    requires Sound(h, key, v, ahead, homeless)
    ensures Sound(h, key, v.(nNew := v.nNew + d), ahead + d, homeless)
  {
  }

  /** An entry whose count has reached zero is homeless. */
  ghost function Gone(refCount: int, id: Id): set<Id> { if refCount == 0 then {id} else {} }

  lemma KnownId(h: Hashes, key: nat, v: Book, ahead: int, homeless: set<Id>, id: Id)
    requires Sound(h, key, v, ahead, homeless) && id in v.info
    ensures 0 <= id < v.idCount && 0 <= v.info[id].refCount <= NEW_BUCKETS_PER_ADDRESS
    ensures v.info[id].service.ip in v.addr && v.addr[v.info[id].service.ip] == id
  {
  }

  /** What ClearNew leaves of an entry it does not concern, and of the rest. */
  lemma Survivors(info: Infos, info': Infos, occupant: Id, id: Id)
    requires Traced(info, info') && KeptBut(info, info', occupant) && id in info && id != occupant
    ensures id in info' && info'[id].refCount == info[id].refCount && info'[id].inTried == info[id].inTried
    ensures info'[id].service == info[id].service
    ensures Traced(info, info'[id := info'[id].(refCount := info'[id].refCount + 1)])
    ensures forall x | x in info && x !in info' :: x == occupant
  {
  }

  lemma TracedUntried(info: Infos, id: Id, info': Infos)
    requires id in info && Traced(info[id := info[id].(inTried := false)], info')
    ensures Traced(info, info')
  {
  }

  lemma TriedCount(h: Hashes, key: nat, v: Book, ahead: int, homeless: set<Id>, s: Slot)
    requires Sound(h, key, v, ahead, homeless) && s in v.tTried
    ensures v.tTried[s] in v.info && v.info[v.tTried[s]].refCount == 0
  {
    var id := v.tTried[s];
    assert id in v.info && v.info[id].inTried;
  }

  lemma TracedRef(info: Infos, id: Id, n: int)
    requires id in info
    ensures Traced(info, info[id := info[id].(refCount := n)])
  {
  }

  lemma TracedRefl(info: Infos)
    ensures Traced(info, info)
  {
  }

  lemma TracedTrans(info: Infos, info': Infos, info'': Infos)
    requires Traced(info, info') && Traced(info', info'')
    ensures Traced(info, info'')
  {
  }

  lemma TracedAt(info: Infos, info': Infos, id: Id)
    requires Traced(info, info') && id in info'
    ensures id in info && info'[id].service == info[id].service
    ensures info'[id] == info[id].(refCount := info'[id].refCount, inTried := info'[id].inTried, randomPos := info'[id].randomPos)
    ensures Traced(info, info'[id := info'[id].(inTried := true)])
    ensures forall x | x in info' :: x in info && info'[x].service == info[x].service
  {
  }

  /** Changing only statistics of one entry. */
  lemma TouchSound(h: Hashes, key: nat, v: Book, ahead: int, homeless: set<Id>, id: Id, e: AddrInfo)
    requires Sound(h, key, v, ahead, homeless) && id in v.info
    requires e.service == v.info[id].service && e.refCount == v.info[id].refCount
    requires e.inTried == v.info[id].inTried && e.randomPos == v.info[id].randomPos
    ensures Sound(h, key, v.(info := v.info[id := e]), ahead, homeless)
  {
    BookkeepingSound(h, key, v, v.(info := v.info[id := e]), ahead, homeless);
  }

  /** A scan over all buckets from any starting point meets every bucket. */
  lemma ScanMeets(start: nat, bucket: int) returns (n: nat)
    requires 0 <= bucket < NEW_BUCKET_COUNT
    ensures n < NEW_BUCKET_COUNT && (n + start) % NEW_BUCKET_COUNT == bucket
  {
    n := (bucket - start) % NEW_BUCKET_COUNT;
  }

  lemma DeletedTraced(info: Infos, info': Infos, id: Id)
    requires SameButPos(info - {id}, info')
    ensures Traced(info, info') && id !in info' && forall x | x in info && x != id :: x in info'
  {
    assert forall x | x in info - {id} :: (info - {id})[x] == info[x];
  }

  lemma TracedSome(info: Infos, info': Infos)
    requires Traced(info, info')
    ensures forall x | x in info' ::
      && x in info && info'[x].service == info[x].service
      && info'[x].time == info[x].time && info'[x].services == info[x].services
  {
  }

  /** An address is known exactly as long as its entry is. */
  lemma AddressFollows(h: Hashes, key: nat, v: Book, ahead: int, homeless: set<Id>, v': Book, id: Id)
    requires Sound(h, key, v, ahead, homeless) && Sound(h, key, v', 0, {}) && Traced(v.info, v'.info) && id in v.info
    ensures v.info[id].service.ip in v'.addr <==> id in v'.info
    ensures id in v'.info ==> v'.addr[v.info[id].service.ip] == id
  {
    if v.info[id].service.ip in v'.addr {
      var x := v'.addr[v.info[id].service.ip];
      assert x in v'.info && x in v.info && v.info[x].service.ip == v.info[id].service.ip;
    }
  }

  lemma EmptyBookSound(h: Hashes, key: nat)
    ensures Sound(h, key, Book(map[], map[], [], map[], map[], 0, 0, 0), 0, {})
  {
    assert NewIds(map[]) == {} && TriedIds(map[]) == {} && Homeless(map[]) == {};
  }

  lemma RandomEntry(h: Hashes, key: nat, v: Book, i: int)
    requires Sound(h, key, v, 0, {}) && 0 <= i < |v.random|
    ensures v.random[i] in v.info
    ensures forall j | 0 <= j < |v.random| && j != i :: v.random[j] != v.random[i]
  {
    forall j | 0 <= j < |v.random| && j != i ensures v.random[j] != v.random[i] {
      assert v.info[v.random[j]].randomPos == j && v.info[v.random[i]].randomPos == i;
    }
  }

  lemma AllInRandom(h: Hashes, key: nat, v: Book)
    requires Sound(h, key, v, 0, {})
    ensures forall id | id in v.info :: id in v.random
  {
    forall id | id in v.info ensures id in v.random {
      assert v.random[v.info[id].randomPos] == id;
    }
  }

  lemma TerribleKept(info: Infos, info': Infos, now: int)
    requires SameButPos(info, info')
    ensures forall id | id in info :: id in info' && (IsTerrible(info'[id], now) <==> IsTerrible(info[id], now))
  {
  }

  lemma Member<T>(s: set<T>) returns (x: T)
    requires s != {}
    ensures x in s
  {
    x :| x in s;
  }

  lemma {:induction false} DistinctSize(q: seq<Id>)
    requires forall i, j | 0 <= i < j < |q| :: q[i] != q[j]
    ensures |set i | 0 <= i < |q| :: q[i]| == |q|
  {
    var all := set i | 0 <= i < |q| :: q[i];
    if q == [] {
      assert all == {};
    } else {
      var init := q[..|q| - 1];
      DistinctSize(init);
      var some := set i | 0 <= i < |init| :: init[i];
      var last := q[|q| - 1];
      forall x ensures x in all <==> x in some + {last} {
        if x in all { var i :| 0 <= i < |q| && q[i] == x; assert i < |init| ==> init[i] == x; }
        if x in some { var i :| 0 <= i < |init| && init[i] == x; assert q[i] == x; }
        if x == last { assert q[|q| - 1] == x; }
      }
      assert all == some + {last};
    }
  }

  lemma IndexSize(info: Infos, addr: map<NetAddr, Id>, random: seq<Id>)
    requires Indexed(info, addr, random)
    ensures |info.Keys| == |random|
  {
    forall i, j | 0 <= i < j < |random| ensures random[i] != random[j] {
      assert info[random[i]].randomPos == i && info[random[j]].randomPos == j;
    }
    DistinctSize(random);
    var all := set i | 0 <= i < |random| :: random[i];
    forall id ensures id in all <==> id in info.Keys {
      if id in info { assert random[info[id].randomPos] == id; }
    }
    assert all == info.Keys;
  }

  lemma TwoTables(info: Infos)
    requires Homeless(info) == {} && forall id | id in info :: info[id].refCount >= 0 && (info[id].inTried ==> info[id].refCount == 0)
    ensures |info.Keys| == |NewIds(info)| + |TriedIds(info)|
  {
    forall id
      ensures id in info.Keys <==> id in NewIds(info) + TriedIds(info)
      ensures id in NewIds(info) ==> id !in TriedIds(info)
    {
      if id in info { assert id !in Homeless(info); }
    }
    assert info.Keys == NewIds(info) + TriedIds(info) && NewIds(info) !! TriedIds(info);
  }

  /** The conditions of the original's Check_ that tie the indexes and counters together: vRandom has
      as many elements as both counters say, every count is between 1 and 8 outside tried and 0 inside,
      and every index entry points back. */
  lemma CheckPasses(h: Hashes, key: nat, v: Book)
    requires Sound(h, key, v, 0, {})
    ensures |v.random| == v.nTried + v.nNew && |v.info.Keys| == |v.random|
    ensures forall id | id in v.info ::
      && (if v.info[id].inTried then v.info[id].refCount == 0 else 1 <= v.info[id].refCount <= NEW_BUCKETS_PER_ADDRESS)
      && v.info[id].service.ip in v.addr && v.addr[v.info[id].service.ip] == id
      && 0 <= v.info[id].randomPos < |v.random| && v.random[v.info[id].randomPos] == id
  {
    hide Indexed, NewPlaced, TriedPlaced, NewIds, TriedIds, Homeless, Slots;
    forall id | id in v.info
      ensures if v.info[id].inTried then v.info[id].refCount == 0 else 1 <= v.info[id].refCount <= NEW_BUCKETS_PER_ADDRESS
      ensures v.info[id].service.ip in v.addr && v.addr[v.info[id].service.ip] == id
      ensures 0 <= v.info[id].randomPos < |v.random| && v.random[v.info[id].randomPos] == id
    {
      Housed(h, key, v, id);
    }
    IndexSize(v.info, v.addr, v.random);
    TwoTables(v.info);
  }
}
