/** Saving the address manager to disk and loading it again (src/addrman.h, Serialize and Unserialize).
    Ids are not stored: entries are numbered anew, new entries first, and the tried table, the address
    index and the random order are rebuilt. Nothing is lost. */
module AddrManDisk {
  import opened AddrManIndex

  /** The fields of an entry that are written out. */
  datatype Record = Record(
    service: Service, services: set<nat>, time: int, source: NetAddr, lastSuccess: int, attempts: int)

  function ToRecord(e: AddrInfo): Record {
    Record(e.service, e.services, e.time, e.source, e.lastSuccess, e.attempts)
  }

  /** A record read back: the memory-only statistics start from zero. */
  function FromRecord(r: Record, refCount: int, inTried: bool, randomPos: int): AddrInfo {
    AddrInfo(r.service, r.services, r.time, r.source, 0, 0, r.lastSuccess, r.attempts, refCount, inTried, randomPos)
  }

  datatype Disk = Disk(
    version: nat, keySize: nat, key: nat, nNew: int, nTried: int, nUBuckets: nat,
    newRecords: seq<Record>, triedRecords: seq<Record>, buckets: seq<seq<int>>)

  /** Does an entry go into the list of tried entries, or into the list of new entries? */
  predicate Listed(e: AddrInfo, tried: bool) { if tried then e.inTried else e.refCount != 0 }

  /** The ids below n that go into a list, in ascending order. */
  function IdsBelow(info: Infos, n: nat, tried: bool): seq<Id> {
    if n == 0 then []
    else IdsBelow(info, n - 1, tried) + (if n - 1 in info && Listed(info[n - 1], tried) then [n - 1] else [])
  }

  lemma {:induction false} IdsBelowMembers(info: Infos, n: nat, tried: bool, id: Id)
    ensures id in IdsBelow(info, n, tried) <==> 0 <= id < n && id in info && Listed(info[id], tried)
  {
    if n > 0 { IdsBelowMembers(info, n - 1, tried, id); }
  }

  /** The position of a listed id is the number of listed ids below it. */
  lemma {:induction false} IdsBelowRank(info: Infos, n: nat, tried: bool, id: Id)
    requires 0 <= id < n && id in info && Listed(info[id], tried)
    ensures |IdsBelow(info, id, tried)| < |IdsBelow(info, n, tried)|
    ensures IdsBelow(info, n, tried)[|IdsBelow(info, id, tried)|] == id
  {
    if id < n - 1 { IdsBelowRank(info, n - 1, tried, id); }
  }

  /** The id at a position has that position as its number. */
  lemma {:induction false} IdsBelowAt(info: Infos, n: nat, tried: bool, k: int)
    requires 0 <= k < |IdsBelow(info, n, tried)|
    ensures var id := IdsBelow(info, n, tried)[k];
      && 0 <= id < n && id in info && Listed(info[id], tried) && |IdsBelow(info, id, tried)| == k
  {
    if k < |IdsBelow(info, n - 1, tried)| { IdsBelowAt(info, n - 1, tried, k); }
  }

  ghost function ListedIds(info: Infos, n: nat, tried: bool): set<Id> {
    set id | id in info && 0 <= id < n && Listed(info[id], tried)
  }

  lemma ListedIdsStep(info: Infos, n: nat, tried: bool)
    ensures |ListedIds(info, n + 1, tried)|
            == |ListedIds(info, n, tried)| + One(n in info && Listed(info[n], tried))
  {
    assert n !in ListedIds(info, n, tried);
    assert ListedIds(info, n + 1, tried)
           == if n in info && Listed(info[n], tried) then ListedIds(info, n, tried) + {n} else ListedIds(info, n, tried);
  }

  /** The lists are as long as the counters say. */
  lemma {:induction false} IdsBelowCount(info: Infos, n: nat, tried: bool)
    ensures |IdsBelow(info, n, tried)| == |ListedIds(info, n, tried)|
  {
    if n == 0 {
      assert ListedIds(info, 0, tried) == {};
    } else {
      hide ListedIds;
      IdsBelowCount(info, n - 1, tried);
      ListedIdsStep(info, n - 1, tried);
    }
  }

  lemma ListedIdsAll(info: Infos, n: nat)
    requires forall id | id in info :: 0 <= id < n && info[id].refCount >= 0
    ensures ListedIds(info, n, false) == NewIds(info) && ListedIds(info, n, true) == TriedIds(info)
  {
  }

  lemma ListLengths(h: Hashes, key: nat, v: Book)
    requires Sound(h, key, v, 0, {}) && v.idCount >= 0
    ensures |IdsBelow(v.info, v.idCount, false)| == v.nNew && |IdsBelow(v.info, v.idCount, true)| == v.nTried
  {
    forall id | id in v.info ensures 0 <= id < v.idCount && v.info[id].refCount >= 0 { KnownId(h, key, v, 0, {}, id); }
    hide Indexed, NewPlaced, TriedPlaced, ListedIds, NewIds, TriedIds;
    IdsBelowCount(v.info, v.idCount, false);
    IdsBelowCount(v.info, v.idCount, true);
    ListedIdsAll(v.info, v.idCount);
  }

  /** The new number of an entry. */
  function Renumber(info: Infos, idCount: nat, id: Id): Id
    requires id in info && 0 <= id
  {
    if info[id].inTried then |IdsBelow(info, idCount, false)| + |IdsBelow(info, id, true)|
    else |IdsBelow(info, id, false)|
  }

  /** The entry that gets a number. */
  function Numbered(info: Infos, idCount: nat, k: nat): Id
    requires k < |IdsBelow(info, idCount, false)| + |IdsBelow(info, idCount, true)|
  {
    var n := |IdsBelow(info, idCount, false)|;
    if k < n then IdsBelow(info, idCount, false)[k] else IdsBelow(info, idCount, true)[k - n]
  }

  lemma NumberedRenumber(h: Hashes, key: nat, v: Book, id: Id)
    requires Sound(h, key, v, 0, {}) && v.idCount >= 0 && id in v.info
    ensures 0 <= id < v.idCount && 0 <= Renumber(v.info, v.idCount, id) < v.nNew + v.nTried
    ensures Renumber(v.info, v.idCount, id) < v.nNew <==> !v.info[id].inTried
    ensures |IdsBelow(v.info, v.idCount, false)| == v.nNew && |IdsBelow(v.info, v.idCount, true)| == v.nTried
    ensures Numbered(v.info, v.idCount, Renumber(v.info, v.idCount, id)) == id
  {
    Housed(h, key, v, id);
    hide Sound;
    ListLengths(h, key, v);
    IdsBelowRank(v.info, v.idCount, v.info[id].inTried, id);
  }

  lemma RenumberNumbered(h: Hashes, key: nat, v: Book, k: nat)
    requires Sound(h, key, v, 0, {}) && v.idCount >= 0 && k < v.nNew + v.nTried
    ensures |IdsBelow(v.info, v.idCount, false)| == v.nNew && |IdsBelow(v.info, v.idCount, true)| == v.nTried
    ensures var id := Numbered(v.info, v.idCount, k);
      id in v.info && 0 <= id < v.idCount && Renumber(v.info, v.idCount, id) == k && (v.info[id].inTried <==> k >= v.nNew)
  {
    hide Sound;
    ListLengths(h, key, v);
    if k < v.nNew { IdsBelowAt(v.info, v.idCount, false, k); } else { IdsBelowAt(v.info, v.idCount, true, k - v.nNew); }
    Housed(h, key, v, Numbered(v.info, v.idCount, k));
  }

  // ---------------------------------------------------------------------------------------------
  // The renumbered book
  // ---------------------------------------------------------------------------------------------

  ghost function RenameTable(v: Book, t: Table): Table
    requires v.idCount >= 0
  {
    map s | s in t && t[s] in v.info && 0 <= t[s] :: Renumber(v.info, v.idCount, t[s])
  }

  ghost function RenameAddr(v: Book): map<NetAddr, Id>
    requires v.idCount >= 0
  {
    map a | a in v.addr && v.addr[a] in v.info && 0 <= v.addr[a] :: Renumber(v.info, v.idCount, v.addr[a])
  }

  ghost function ListTotal(v: Book): nat
    requires v.idCount >= 0
  {
    |IdsBelow(v.info, v.idCount, false)| + |IdsBelow(v.info, v.idCount, true)|
  }

  /** An entry as it is after loading: the same address and statistics, in the same tables, under its
      new number, which is also its place in the random order. */
  function Reborn(e: AddrInfo, k: nat): AddrInfo { FromRecord(ToRecord(e), e.refCount, e.inTried, k) }

  ghost function RenameInfo(v: Book): Infos
    requires v.idCount >= 0
  {
    map k | 0 <= k < ListTotal(v) && Numbered(v.info, v.idCount, k) in v.info
      :: Reborn(v.info[Numbered(v.info, v.idCount, k)], k)
  }

  /** What loading makes of a saved book: everything under new numbers. */
  ghost function Restored(v: Book): Book
    requires v.idCount >= 0
  {
    Book(RenameInfo(v), RenameAddr(v), seq(ListTotal(v), i => i), RenameTable(v, v.tNew), RenameTable(v, v.tTried),
         ListTotal(v), v.nNew, v.nTried)
  }

  lemma RestoredAt(h: Hashes, key: nat, v: Book, id: Id)
    requires Sound(h, key, v, 0, {}) && v.idCount >= 0 && id in v.info
    ensures 0 <= id && Renumber(v.info, v.idCount, id) in RenameInfo(v)
    ensures RenameInfo(v)[Renumber(v.info, v.idCount, id)] == Reborn(v.info[id], Renumber(v.info, v.idCount, id))
  {
    hide Sound;
    NumberedRenumber(h, key, v, id);
  }

  lemma RestoredFrom(h: Hashes, key: nat, v: Book, k: Id)
    requires Sound(h, key, v, 0, {}) && v.idCount >= 0
    ensures k in RenameInfo(v) <==> 0 <= k < v.nNew + v.nTried
    ensures k in RenameInfo(v) ==>
      && ListTotal(v) == v.nNew + v.nTried
      && var id := Numbered(v.info, v.idCount, k);
         && id in v.info && 0 <= id && Renumber(v.info, v.idCount, id) == k
         && RenameInfo(v)[k] == Reborn(v.info[id], k)
         && (v.info[id].inTried <==> k >= v.nNew)
  {
    hide Sound, IdsBelow, Numbered;
    ListLengths(h, key, v);
    if 0 <= k < v.nNew + v.nTried { RenumberNumbered(h, key, v, k); }
  }

  lemma {:induction false} CountRange(s: set<int>, a: int, b: int)
    requires a <= b && forall k :: k in s <==> a <= k < b
    ensures |s| == b - a
    decreases b - a
  {
    if a == b {
      if s != {} { var _ := Member(s); }
    } else {
      CountRange(s - {b - 1}, a, b - 1);
    }
  }

  lemma RestoredIndexed(h: Hashes, key: nat, v: Book)
    requires Sound(h, key, v, 0, {}) && v.idCount >= 0
    ensures var w := Restored(v); Indexed(w.info, w.addr, w.random)
  {
    hide Sound, IdsBelow, Numbered, Renumber, RenameInfo;
    var w := Restored(v);
    ListLengths(h, key, v);
    forall k | k in w.info
      ensures 0 <= w.info[k].randomPos < |w.random| && w.random[w.info[k].randomPos] == k
      ensures w.info[k].service.ip in w.addr && w.addr[w.info[k].service.ip] == k
    {
      RestoredFrom(h, key, v, k);
      Housed(h, key, v, Numbered(v.info, v.idCount, k));
    }
    forall i | 0 <= i < |w.random| ensures w.random[i] in w.info && w.info[w.random[i]].randomPos == i {
      RestoredFrom(h, key, v, i);
    }
    forall a | a in w.addr ensures w.addr[a] in w.info && w.info[w.addr[a]].service.ip == a {
      KnownAddress(h, key, v, a);
      RestoredAt(h, key, v, v.addr[a]);
    }
  }

  /** Renaming is one to one, so a slot holds the renamed entry exactly if it held the entry. */
  lemma RestoredSlot(h: Hashes, key: nat, v: Book, t: Table, s: Slot, k: Id)
    requires Sound(h, key, v, 0, {}) && v.idCount >= 0 && k in RenameInfo(v)
    requires s in t ==> t[s] in v.info
    ensures 0 <= k < ListTotal(v)
    ensures s in RenameTable(v, t) <==> s in t
    ensures s in t ==> (RenameTable(v, t)[s] == k <==> t[s] == Numbered(v.info, v.idCount, k))
  {
    hide Sound, IdsBelow, Numbered, Renumber, RenameInfo;
    RestoredFrom(h, key, v, k);
    if s in t { NumberedRenumber(h, key, v, t[s]); }
  }

  lemma RestoredNew(h: Hashes, key: nat, v: Book)
    requires Sound(h, key, v, 0, {}) && v.idCount >= 0
    ensures var w := Restored(v); NewPlaced(h, key, w.info, w.tNew)
  {
    hide Sound, IdsBelow, Numbered, Renumber, RenameInfo;
    var w := Restored(v);
    forall s | s in w.tNew
      ensures 0 <= s.0 < NEW_BUCKET_COUNT && w.tNew[s] in w.info
      ensures s.1 == h.BucketPosition(key, true, s.0, w.info[w.tNew[s]].service)
    {
      NewSlotAt(h, key, v, s);
      RestoredAt(h, key, v, v.tNew[s]);
    }
    forall k | k in w.info ensures w.info[k].refCount == |Slots(w.tNew, k)| {
      RestoredFrom(h, key, v, k);
      var id := Numbered(v.info, v.idCount, k);
      Housed(h, key, v, id);
      forall s ensures s in Slots(w.tNew, k) <==> s in Slots(v.tNew, id) {
        if s in v.tNew { NewSlotAt(h, key, v, s); }
        RestoredSlot(h, key, v, v.tNew, s, k);
      }
      assert Slots(w.tNew, k) == Slots(v.tNew, id);
    }
  }

  lemma NewSlotAt(h: Hashes, key: nat, v: Book, s: Slot)
    requires Sound(h, key, v, 0, {}) && s in v.tNew
    ensures 0 <= s.0 < NEW_BUCKET_COUNT && v.tNew[s] in v.info
    ensures s.1 == h.BucketPosition(key, true, s.0, v.info[v.tNew[s]].service)
  {
  }

  lemma TriedSlotAt(h: Hashes, key: nat, v: Book, s: Slot)
    requires Sound(h, key, v, 0, {}) && s in v.tTried
    ensures 0 <= s.0 < TRIED_BUCKET_COUNT && v.tTried[s] in v.info && v.info[v.tTried[s]].inTried
    ensures s == h.TriedSlot(key, v.info[v.tTried[s]].service)
  {
  }

  lemma RestoredTried(h: Hashes, key: nat, v: Book)
    requires Sound(h, key, v, 0, {}) && v.idCount >= 0
    ensures var w := Restored(v); TriedPlaced(h, key, w.info, w.tTried)
  {
    hide Sound, IdsBelow, Numbered, Renumber, RenameInfo;
    var w := Restored(v);
    forall s | s in w.tTried
      ensures 0 <= s.0 < TRIED_BUCKET_COUNT && w.tTried[s] in w.info && w.info[w.tTried[s]].inTried
      ensures s == h.TriedSlot(key, w.info[w.tTried[s]].service)
    {
      TriedSlotAt(h, key, v, s);
      RestoredAt(h, key, v, v.tTried[s]);
    }
    forall k | k in w.info && w.info[k].inTried
      ensures w.info[k].refCount == 0
      ensures h.TriedSlot(key, w.info[k].service) in w.tTried && w.tTried[h.TriedSlot(key, w.info[k].service)] == k
    {
      RestoredFrom(h, key, v, k);
      Housed(h, key, v, Numbered(v.info, v.idCount, k));
    }
  }

  lemma RestoredCounts(h: Hashes, key: nat, v: Book)
    requires Sound(h, key, v, 0, {}) && v.idCount >= 0
    ensures var info := RenameInfo(v);
      && |NewIds(info)| == v.nNew && |TriedIds(info)| == v.nTried && Homeless(info) == {}
      && Bounded(info, ListTotal(v))
  {
    hide Sound, IdsBelow, Numbered, Renumber, RenameInfo;
    var info := RenameInfo(v);
    ListLengths(h, key, v);
    forall k
      ensures k in NewIds(info) <==> 0 <= k < v.nNew
      ensures k in TriedIds(info) <==> v.nNew <= k < v.nNew + v.nTried
      ensures k !in Homeless(info)
      ensures k in info ==> 0 <= k < ListTotal(v) && info[k].refCount <= NEW_BUCKETS_PER_ADDRESS
    {
      RestoredFrom(h, key, v, k);
      if k in info { Housed(h, key, v, Numbered(v.info, v.idCount, k)); }
    }
    CountRange(NewIds(info), 0, v.nNew);
    CountRange(TriedIds(info), v.nNew, v.nNew + v.nTried);
  }

  /** The loaded book is consistent again. */
  lemma RestoredSound(h: Hashes, key: nat, v: Book)
    requires Sound(h, key, v, 0, {}) && v.idCount >= 0
    ensures Sound(h, key, Restored(v), 0, {})
  {
    hide Indexed, NewPlaced, TriedPlaced, NewIds, TriedIds, Homeless, Bounded;
    RestoredIndexed(h, key, v);
    RestoredNew(h, key, v);
    RestoredTried(h, key, v);
    RestoredCounts(h, key, v);
  }

  /** Nothing is lost by saving and loading: every slot of either table holds the entry it held before,
      with the same address, statistics and number of references. */
  lemma RestoredOccupant(h: Hashes, key: nat, v: Book, s: Slot)
    requires Sound(h, key, v, 0, {}) && v.idCount >= 0
    ensures s in RenameTable(v, v.tNew) <==> s in v.tNew
    ensures s in RenameTable(v, v.tTried) <==> s in v.tTried
    ensures s in v.tNew ==> SameEntry(v, v.tNew[s], RenameTable(v, v.tNew)[s])
    ensures s in v.tTried ==> SameEntry(v, v.tTried[s], RenameTable(v, v.tTried)[s])
  {
    hide Sound, IdsBelow, Numbered, RenameInfo;
    if s in v.tNew {
      NewSlotAt(h, key, v, s);
      RestoredAt(h, key, v, v.tNew[s]);
    }
    if s in v.tTried {
      TriedSlotAt(h, key, v, s);
      RestoredAt(h, key, v, v.tTried[s]);
    }
  }

  /** Entry `id` of the saved book and entry `k` of the loaded one are the same. */
  ghost predicate SameEntry(v: Book, id: Id, k: Id)
    requires v.idCount >= 0
  {
    id in v.info && k in RenameInfo(v) && 0 <= k && RenameInfo(v)[k] == Reborn(v.info[id], k)
  }

  // ---------------------------------------------------------------------------------------------
  // What is written
  // ---------------------------------------------------------------------------------------------

  function RecordsBelow(info: Infos, n: nat, tried: bool): seq<Record> {
    if n == 0 then []
    else RecordsBelow(info, n - 1, tried)
         + (if n - 1 in info && Listed(info[n - 1], tried) then [ToRecord(info[n - 1])] else [])
  }

  lemma {:induction false} RecordsOfIds(info: Infos, n: nat, tried: bool)
    ensures |RecordsBelow(info, n, tried)| == |IdsBelow(info, n, tried)|
    ensures forall k | 0 <= k < |IdsBelow(info, n, tried)| ::
      IdsBelow(info, n, tried)[k] in info && RecordsBelow(info, n, tried)[k] == ToRecord(info[IdsBelow(info, n, tried)[k]])
  {
    if n > 0 { RecordsOfIds(info, n - 1, tried); }
  }

  /** The numbers stored for the occupied positions below p of a bucket. */
  ghost function BucketList(v: Book, b: int, p: nat): seq<int>
    requires v.idCount >= 0
  {
    if p == 0 then []
    else BucketList(v, b, p - 1) + (if (b, p - 1) in v.tNew then [|IdsBelow(v.info, Max0(v.tNew[(b, p - 1)]), false)|] else [])
  }

  /** Exclusive or with 2**30. */
  function FlipBit30(x: nat): nat {
    if x / 0x4000_0000 % 2 == 1 then x - 0x4000_0000 else x + 0x4000_0000
  }

  function Max0(x: int): nat { if x < 0 then 0 else x }

  ghost function Saved(key: nat, v: Book): Disk
    requires v.idCount >= 0
  {
    Disk(1, 32, key, v.nNew, v.nTried, FlipBit30(NEW_BUCKET_COUNT), RecordsBelow(v.info, v.idCount, false), RecordsBelow(v.info, v.idCount, true),
         seq(NEW_BUCKET_COUNT, b => BucketList(v, b, BUCKET_SIZE)))
  }

  // ---------------------------------------------------------------------------------------------
  // What is read
  // ---------------------------------------------------------------------------------------------

  /** The entries with numbers below n, with the references they have in a partial new table. */
  ghost function Loading(v: Book, n: nat, t: Table): Infos
    requires v.idCount >= 0
  {
    map k | 0 <= k < n && k < ListTotal(v) && Numbered(v.info, v.idCount, k) in v.info
      :: FromRecord(ToRecord(v.info[Numbered(v.info, v.idCount, k)]), |Slots(t, k)|, v.info[Numbered(v.info, v.idCount, k)].inTried, k)
  }

  /** The part of a table in buckets below b, and in bucket b below position p. */
  ghost function Before(t: Table, b: int, p: int): Table {
    map s | s in t && (s.0 < b || (s.0 == b && s.1 < p)) :: t[s]
  }

  lemma LoadingAt(h: Hashes, key: nat, v: Book, n: nat, t: Table, k: Id)
    requires Sound(h, key, v, 0, {}) && v.idCount >= 0 && n <= v.nNew + v.nTried
    ensures k in Loading(v, n, t) <==> 0 <= k < n
    ensures k in Loading(v, n, t) ==>
      && k < ListTotal(v)
      && var id := Numbered(v.info, v.idCount, k);
         && id in v.info && 0 <= id && Renumber(v.info, v.idCount, id) == k && (v.info[id].inTried <==> k >= v.nNew)
         && Loading(v, n, t)[k] == FromRecord(ToRecord(v.info[id]), |Slots(t, k)|, v.info[id].inTried, k)
  {
    hide Sound, IdsBelow, Numbered, Renumber, Slots;
    ListLengths(h, key, v);
    if 0 <= k < n { RenumberNumbered(h, key, v, k); }
  }

  /** Reading one more entry. */
  lemma LoadingStep(h: Hashes, key: nat, v: Book, n: nat, t: Table)
    requires Sound(h, key, v, 0, {}) && v.idCount >= 0 && n < v.nNew + v.nTried
    ensures n < ListTotal(v) && Numbered(v.info, v.idCount, n) in v.info
    ensures Loading(v, n + 1, t)
            == Loading(v, n, t)[n := FromRecord(ToRecord(v.info[Numbered(v.info, v.idCount, n)]), |Slots(t, n)|, n >= v.nNew, n)]
  {
    hide Sound, IdsBelow, Numbered, Renumber, Slots;
    ListLengths(h, key, v);
    RenumberNumbered(h, key, v, n);
  }

  /** The address of the next entry is not known yet. */
  lemma LoadingFresh(h: Hashes, key: nat, v: Book, n: nat, t: Table, addr: map<NetAddr, Id>, random: seq<Id>)
    requires Sound(h, key, v, 0, {}) && v.idCount >= 0 && n < v.nNew + v.nTried
    requires Indexed(Loading(v, n, t), addr, random)
    ensures n < ListTotal(v) && Numbered(v.info, v.idCount, n) in v.info
    ensures v.info[Numbered(v.info, v.idCount, n)].service.ip !in addr
  {
    hide Sound, IdsBelow, Numbered, Renumber, Loading;
    ListLengths(h, key, v);
    RenumberNumbered(h, key, v, n);
    var id := Numbered(v.info, v.idCount, n);
    Housed(h, key, v, id);
    if v.info[id].service.ip in addr {
      var k := addr[v.info[id].service.ip];
      LoadingAt(h, key, v, n, t, k);
      Housed(h, key, v, Numbered(v.info, v.idCount, k));
    }
  }

  /** The tried slot of the next tried entry is still free. */
  lemma LoadingTriedSlot(h: Hashes, key: nat, v: Book, n: nat)
    requires Sound(h, key, v, 0, {}) && v.idCount >= 0 && v.nNew <= n < v.nNew + v.nTried
    ensures n < ListTotal(v) && Numbered(v.info, v.idCount, n) in v.info
    ensures var s := h.TriedSlot(key, v.info[Numbered(v.info, v.idCount, n)].service);
      && s !in TriedBelow(v, n) && TriedBelow(v, n + 1) == TriedBelow(v, n)[s := n]
  {
    hide Sound, IdsBelow, Numbered, Renumber;
    ListLengths(h, key, v);
    RenumberNumbered(h, key, v, n);
    var id := Numbered(v.info, v.idCount, n);
    Housed(h, key, v, id);
    var s := h.TriedSlot(key, v.info[id].service);
    forall x
      ensures x in TriedBelow(v, n + 1) <==> x in TriedBelow(v, n) || x == s
      ensures x in TriedBelow(v, n) ==> TriedBelow(v, n + 1)[x] == TriedBelow(v, n)[x] && x != s
    {
      if x in v.tTried {
        TriedSlotAt(h, key, v, x);
        NumberedRenumber(h, key, v, v.tTried[x]);
      }
    }
  }

  /** The tried slots of entries numbered below n. */
  ghost function TriedBelow(v: Book, n: nat): Table
    requires v.idCount >= 0
  {
    map s | s in v.tTried && v.tTried[s] in v.info && 0 <= v.tTried[s] && Renumber(v.info, v.idCount, v.tTried[s]) < n
      :: Renumber(v.info, v.idCount, v.tTried[s])
  }

  lemma TriedBelowEnds(h: Hashes, key: nat, v: Book)
    requires Sound(h, key, v, 0, {}) && v.idCount >= 0
    ensures v.nNew >= 0 && v.nTried >= 0
    ensures TriedBelow(v, v.nNew) == map[] && TriedBelow(v, v.nNew + v.nTried) == RenameTable(v, v.tTried)
  {
    hide IdsBelow, Numbered, Renumber, Slots;
    forall x | x in v.tTried
      ensures v.tTried[x] in v.info && 0 <= v.tTried[x]
      ensures v.nNew <= Renumber(v.info, v.idCount, v.tTried[x]) < v.nNew + v.nTried
    {
      TriedSlotAt(h, key, v, x);
      NumberedRenumber(h, key, v, v.tTried[x]);
    }
  }

  /** Filling one more occupied position of the new table, in the order it was written. */
  lemma BeforeStep(t: Table, b: int, p: int, q: int)
    requires p <= q && (b, q) in t && forall r | p <= r < q :: (b, r) !in t
    ensures (b, q) !in Before(t, b, p)
    ensures Before(t, b, q + 1) == Before(t, b, p)[(b, q) := t[(b, q)]]
  {
    forall s ensures s in Before(t, b, q + 1) <==> s in Before(t, b, p) || s == (b, q) {
      if s in t && s.0 == b { assert s == (b, s.1); }
    }
  }

  lemma BeforeNextBucket(t: Table, b: int, p: int)
    requires forall s | s in t :: 0 <= s.1 && (s.0 == b ==> s.1 < p)
    ensures Before(t, b + 1, 0) == Before(t, b, p)
  {
    forall s ensures s in Before(t, b + 1, 0) <==> s in Before(t, b, p) {}
  }

  lemma BeforeSlots(t: Table, b: int, p: int, s: Slot, k: Id)
    requires s in t && s !in Before(t, b, p) && t[s] == k
    ensures |Slots(Before(t, b, p), k)| < |Slots(t, k)|
  {
    assert Slots(Before(t, b, p), k) + {s} <= Slots(t, k);
    SubsetSize(Slots(Before(t, b, p), k) + {s}, Slots(t, k));
  }

  lemma {:induction false} SubsetSize<T>(a: set<T>, b: set<T>)
    requires a <= b
    ensures |a| <= |b|
    decreases a
  {
    if a != {} {
      var x :| x in a;
      SubsetSize(a - {x}, b - {x});
    }
  }

  /** One more reference for entry k. */
  lemma LoadingFill(h: Hashes, key: nat, v: Book, t: Table, s: Slot, k: Id)
    requires Sound(h, key, v, 0, {}) && v.idCount >= 0 && s !in t && 0 <= k < v.nNew + v.nTried
    ensures k in Loading(v, v.nNew + v.nTried, t)
    ensures var e := Loading(v, v.nNew + v.nTried, t)[k];
      Loading(v, v.nNew + v.nTried, t[s := k]) == Loading(v, v.nNew + v.nTried, t)[k := e.(refCount := e.refCount + 1)]
  {
    hide Sound, IdsBelow, Numbered, Renumber, Loading;
    var n := v.nNew + v.nTried;
    var t' := t[s := k];
    assert Slots(t', k) == Slots(t, k) + {s};
    LoadingAt(h, key, v, n, t, k);
    forall x
      ensures x in Loading(v, n, t') <==> x in Loading(v, n, t)
      ensures x in Loading(v, n, t) && x != k ==> Loading(v, n, t')[x] == Loading(v, n, t)[x]
      ensures x == k ==> Loading(v, n, t')[x] == Loading(v, n, t)[x].(refCount := Loading(v, n, t)[x].refCount + 1)
    {
      LoadingAt(h, key, v, n, t, x);
      LoadingAt(h, key, v, n, t', x);
      if x != k { assert Slots(t', x) == Slots(t, x); }
    }
  }

  /** The list of a bucket, walked along: its next number belongs to the next occupied position. */
  lemma {:induction false} NextOccupied(v: Book, b: int, p: nat, size: nat) returns (q: nat)
    requires v.idCount >= 0 && p <= size && |BucketList(v, b, p)| < |BucketList(v, b, size)|
    ensures p <= q < size && (b, q) in v.tNew && (forall r | p <= r < q :: (b, r) !in v.tNew)
    ensures |BucketList(v, b, q + 1)| == |BucketList(v, b, p)| + 1
    ensures BucketList(v, b, size)[|BucketList(v, b, p)|] == |IdsBelow(v.info, Max0(v.tNew[(b, q)]), false)|
    decreases size - p
  {
    if (b, p) in v.tNew {
      q := p;
      BucketListPrefix(v, b, p + 1, size);
    } else {
      q := NextOccupied(v, b, p + 1, size);
    }
  }

  lemma {:induction false} BucketListPrefix(v: Book, b: int, p: nat, size: nat)
    requires v.idCount >= 0 && p <= size
    ensures BucketList(v, b, p) <= BucketList(v, b, size)
  {
    if p < size { BucketListPrefix(v, b, p, size - 1); }
  }

  lemma {:induction false} BucketListDone(v: Book, b: int, p: nat, size: nat)
    requires v.idCount >= 0 && p <= size && |BucketList(v, b, p)| == |BucketList(v, b, size)|
    ensures forall r | p <= r < size :: (b, r) !in v.tNew
    decreases size - p
  {
    BucketListPrefix(v, b, p, size);
    if p < size {
      BucketListPrefix(v, b, p + 1, size);
      BucketListDone(v, b, p + 1, size);
    }
  }

  /** With every slot read back, the entries are those of the renumbered book. */
  lemma LoadingDone(h: Hashes, key: nat, v: Book)
    requires Sound(h, key, v, 0, {}) && v.idCount >= 0
    ensures v.nNew + v.nTried >= 0 && Loading(v, v.nNew + v.nTried, RenameTable(v, v.tNew)) == RenameInfo(v)
  {
    hide Sound, IdsBelow, Numbered, Renumber, Loading, RenameInfo, RenameTable, Slots;
    ListLengths(h, key, v);
    RestoredNew(h, key, v);
    var n, t := v.nNew + v.nTried, RenameTable(v, v.tNew);
    forall k
      ensures k in Loading(v, n, t) <==> k in RenameInfo(v)
      ensures k in RenameInfo(v) ==> Loading(v, n, t)[k] == RenameInfo(v)[k]
    {
      LoadingAt(h, key, v, n, t, k);
      RestoredFrom(h, key, v, k);
    }
  }

  /** The indexes are determined by the entries. */
  lemma IndexesDetermined(info: Infos, addr: map<NetAddr, Id>, random: seq<Id>, addr': map<NetAddr, Id>, random': seq<Id>)
    requires Indexed(info, addr, random) && Indexed(info, addr', random') && |random| == |random'|
    ensures addr == addr' && random == random'
  {
    forall i | 0 <= i < |random| ensures random[i] == random'[i] {
      assert info[random[i]].randomPos == i;
    }
    forall a | a in addr ensures a in addr' && addr[a] == addr'[a] {
      var k := addr[a];
      assert k in info && info[k].service.ip == a;
    }
    forall a | a in addr' ensures a in addr {
      var k := addr'[a];
      assert k in info && info[k].service.ip == a;
    }
  }

  lemma {:induction false} GridBound(s: set<Slot>, a: nat, b: nat)
    requires forall x | x in s :: 0 <= x.0 < a && 0 <= x.1 < b
    ensures |s| <= a * b
    decreases a
  {
    if a == 0 {
      assert s == {};
    } else {
      var row, rest := LastRow(s, a, b);
      RowBound(row, a - 1, b);
      GridBound(rest, a - 1, b);
      assert a * b == (a - 1) * b + b;
    }
  }

  lemma LastRow(s: set<Slot>, a: nat, b: nat) returns (row: set<Slot>, rest: set<Slot>)
    requires a > 0 && forall x | x in s :: 0 <= x.0 < a && 0 <= x.1 < b
    ensures |s| == |row| + |rest|
    ensures forall x | x in row :: x.0 == a - 1 && 0 <= x.1 < b
    ensures forall x | x in rest :: 0 <= x.0 < a - 1 && 0 <= x.1 < b
  {
    row := set x | x in s && x.0 == a - 1;
    rest := s - row;
    assert s == rest + row;
  }

  lemma {:induction false} RowBound(s: set<Slot>, a: int, b: nat)
    requires forall x | x in s :: x.0 == a && 0 <= x.1 < b
    ensures |s| <= b
    decreases b
  {
    if b == 0 {
      assert s == {};
    } else {
      RowBound(s - {(a, b - 1)}, a, b - 1);
    }
  }

  /** Entries that each hold a slot are no more than the slots. */
  lemma {:induction false} SlotPerId(ids: set<Id>, t: Table)
    requires forall id | id in ids :: exists s :: s in t && t[s] == id
    ensures |ids| <= |t.Keys|
    decreases |ids|
  {
    if ids != {} {
      var id := Member(ids);
      var s :| s in t && t[s] == id;
      var t' := t - {s};
      forall x | x in ids - {id} ensures exists r :: r in t' && t'[r] == x {
        var r :| r in t && t[r] == x;
        assert r in t' && t'[r] == x;
      }
      SlotPerId(ids - {id}, t');
      assert t'.Keys == t.Keys - {s};
    }
  }

  /** The limits checked on loading are met: there are no more entries than slots. */
  lemma TablesFit(h: Hashes, key: nat, v: Book)
    requires Sound(h, key, v, 0, {})
    ensures v.nNew <= NEW_BUCKET_COUNT * BUCKET_SIZE && v.nTried <= TRIED_BUCKET_COUNT * BUCKET_SIZE
  {
    forall id | id in NewIds(v.info) ensures exists s :: s in v.tNew && v.tNew[s] == id {
      Housed(h, key, v, id);
      var s :| s in Slots(v.tNew, id);
    }
    SlotPerId(NewIds(v.info), v.tNew);
    GridBound(v.tNew.Keys, NEW_BUCKET_COUNT, BUCKET_SIZE);
    forall id | id in TriedIds(v.info) ensures exists s :: s in v.tTried && v.tTried[s] == id {
      Housed(h, key, v, id);
    }
    SlotPerId(TriedIds(v.info), v.tTried);
    GridBound(v.tTried.Keys, TRIED_BUCKET_COUNT, BUCKET_SIZE);
  }

  lemma NothingLoaded(v: Book)
    requires v.idCount >= 0
    ensures Loading(v, 0, map[]) == map[] && Indexed(map[], map[], [])
  {
  }

  /** The record read for a number is that of the entry the number was given to. */
  lemma RecordAt(h: Hashes, key: nat, v: Book, k: nat)
    requires Sound(h, key, v, 0, {}) && v.idCount >= 0 && k < v.nNew + v.nTried
    ensures |RecordsBelow(v.info, v.idCount, false)| == v.nNew && |RecordsBelow(v.info, v.idCount, true)| == v.nTried
    ensures k < ListTotal(v) && Numbered(v.info, v.idCount, k) in v.info
    ensures ToRecord(v.info[Numbered(v.info, v.idCount, k)])
            == if k < v.nNew then RecordsBelow(v.info, v.idCount, false)[k] else RecordsBelow(v.info, v.idCount, true)[k - v.nNew]
    ensures forall x :: Slots(map[], x) == {}
  {
    hide Sound, IdsBelow, RecordsBelow;
    ListLengths(h, key, v);
    RenumberNumbered(h, key, v, k);
    RecordsOfIds(v.info, v.idCount, false);
    RecordsOfIds(v.info, v.idCount, true);
  }

  /** Every id with the number of listed ids below it: mapUnkIds of the original. */
  ghost predicate Ranks(info: Infos, unkIds: map<Id, int>, tried: bool) {
    forall id: Id | id in info ::
      id in unkIds && 0 <= id && unkIds[id] == |IdsBelow(info, id, tried)|
  }

  lemma RankOf(info: Infos, unkIds: map<Id, int>, tried: bool, id: Id)
    requires Ranks(info, unkIds, tried) && id in info
    ensures id in unkIds && 0 <= id && unkIds[id] == |IdsBelow(info, id, tried)|
  {
  }

  /** The occupant of a new slot, by its new number. */
  lemma RenamedOccupant(h: Hashes, key: nat, v: Book, s: Slot)
    requires Sound(h, key, v, 0, {}) && v.idCount >= 0 && s in v.tNew
    ensures v.tNew[s] in v.info && 0 <= v.tNew[s] && s in RenameTable(v, v.tNew)
    ensures RenameTable(v, v.tNew)[s] == |IdsBelow(v.info, v.tNew[s], false)| == Renumber(v.info, v.idCount, v.tNew[s])
    ensures 0 <= RenameTable(v, v.tNew)[s] < v.nNew == |IdsBelow(v.info, v.idCount, false)| && v.nTried >= 0
    ensures Numbered(v.info, v.idCount, RenameTable(v, v.tNew)[s]) == v.tNew[s]
    ensures |Slots(RenameTable(v, v.tNew), RenameTable(v, v.tNew)[s])| <= NEW_BUCKETS_PER_ADDRESS
  {
    hide Sound, IdsBelow, Numbered, Slots, RenameInfo;
    NewOccupant(h, key, v, 0, {}, s);
    var id := v.tNew[s];
    NumberedRenumber(h, key, v, id);
    Housed(h, key, v, id);
    ListLengths(h, key, v);
    RestoredAt(h, key, v, id);
    RestoredNew(h, key, v);
  }

  /** What the next number in a bucket's list stands for: an entry of the new table whose slot is still
      free and which has room for another reference. */
  lemma NextReference(h: Hashes, key: nat, v: Book, b: int, p: nat, q: nat)
    requires Sound(h, key, v, 0, {}) && v.idCount >= 0
    requires p <= q && (b, q) in v.tNew && forall r | p <= r < q :: (b, r) !in v.tNew
    ensures var t := RenameTable(v, v.tNew); var k := |IdsBelow(v.info, Max0(v.tNew[(b, q)]), false)|;
      && 0 <= k < v.nNew && v.nTried >= 0
      && (b, q) !in Before(t, b, p) && Before(t, b, q + 1) == Before(t, b, p)[(b, q) := k]
      && k in Loading(v, v.nNew + v.nTried, Before(t, b, p))
      && var e := Loading(v, v.nNew + v.nTried, Before(t, b, p))[k];
         && e.refCount < NEW_BUCKETS_PER_ADDRESS && 0 <= b < NEW_BUCKET_COUNT
         && q == h.BucketPosition(key, true, b, e.service)
  {
    var t := RenameTable(v, v.tNew);
    assert forall r | p <= r < q :: (b, r) !in t;
    hide Sound, IdsBelow, Numbered, Renumber, Loading, Slots, RenameTable, Before, Hashes.BucketPosition;
    NewSlotAt(h, key, v, (b, q));
    RenamedOccupant(h, key, v, (b, q));
    BeforeStep(t, b, p, q);
    LoadingAt(h, key, v, v.nNew + v.nTried, Before(t, b, p), t[(b, q)]);
    BeforeSlots(t, b, p, (b, q), t[(b, q)]);
  }

  lemma TableRange(h: Hashes, key: nat, v: Book, b: int, p: int)
    requires Sound(h, key, v, 0, {}) && v.idCount >= 0 && b >= 0
    requires b < NEW_BUCKET_COUNT ==> 0 <= p <= BUCKET_SIZE && forall r | p <= r < BUCKET_SIZE :: (b, r) !in v.tNew
    ensures var t := RenameTable(v, v.tNew);
      && (b < NEW_BUCKET_COUNT ==> Before(t, b + 1, 0) == Before(t, b, p))
      && Before(t, 0, 0) == map[] && (b == NEW_BUCKET_COUNT ==> Before(t, b, 0) == t)
  {
    hide IdsBelow, Numbered, Renumber;
    var t := RenameTable(v, v.tNew);
    forall s | s in t ensures 0 <= s.0 < NEW_BUCKET_COUNT && 0 <= s.1 < BUCKET_SIZE { NewSlotAt(h, key, v, s); }
    if b < NEW_BUCKET_COUNT {
      forall s | s in t ensures 0 <= s.1 && (s.0 == b ==> s.1 < p) {
        assert s == (s.0, s.1);
      }
      BeforeNextBucket(t, b, p);
    }
  }

  lemma EmptyBucketList(v: Book, b: int)
    requires v.idCount >= 0
    ensures BucketList(v, b, 0) == []
  {
  }

  lemma IndexedTouch(info: Infos, addr: map<NetAddr, Id>, random: seq<Id>, id: Id, n: int)
    requires Indexed(info, addr, random) && id in info
    ensures Indexed(info[id := info[id].(refCount := n)], addr, random)
  {
  }
}
