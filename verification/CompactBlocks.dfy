/** Compact blocks (src/blockencodings.h, src/blockencodings.cpp): a block sent as short transaction ids and a few
    whole transactions, and put together again from the memory pool and a request for what is missing.

    Transactions are known by their hash. The short id function and the check of the finished block are
    parameters; so is the test for crowded hash map buckets, which can make any message fail. */
module CompactBlocks {
  import opened BitStream
  import opened Serialize

  // ---------------------------------------------------------------------------------------------
  // Differential indexes
  // ---------------------------------------------------------------------------------------------

  const MAX_INDEX: nat := 0xFFFF

  /** Strictly increasing 16-bit indexes. */
  ghost predicate Increasing(idx: seq<nat>) {
    && (forall i | 0 <= i < |idx| :: idx[i] <= MAX_INDEX)
    && (forall i, j | 0 <= i < j < |idx| :: idx[i] < idx[j])
  }

  /** Each index as the distance from the one after the last. */
  function Differences(idx: seq<nat>, offset: nat): seq<int> {
    if idx == [] then [] else [idx[0] - offset] + Differences(idx[1..], idx[0] + 1)
  }

  /** Indexes from differences, or failure when they leave sixteen bits. */
  function Absolute(d: seq<nat>, offset: nat): Option<seq<nat>> {
    if d == [] then Some([])
    else if d[0] + offset > MAX_INDEX then None
    else
      match Absolute(d[1..], d[0] + offset + 1)
      case None => None
      case Some(r) => Some([d[0] + offset] + r)
  }

  ghost predicate AreDifferences(d: seq<int>) { forall i | 0 <= i < |d| :: 0 <= d[i] <= MAX_INDEX }

  /** Decoding the differences of increasing indexes gives the indexes back. */
  lemma {:induction false} DifferencesRoundTrip(idx: seq<nat>, offset: nat)
    requires Increasing(idx) && (idx != [] ==> offset <= idx[0])
    ensures AreDifferences(Differences(idx, offset)) && |Differences(idx, offset)| == |idx|
    ensures Absolute(Differences(idx, offset), offset) == Some(idx)
    decreases |idx|
  {
    if idx != [] {
      DifferencesRoundTrip(idx[1..], idx[0] + 1);
      var d := Differences(idx, offset);
      assert d[1..] == Differences(idx[1..], idx[0] + 1);
      assert idx == [idx[0]] + idx[1..];
    }
  }

  /** What is decoded is increasing, and has these differences. */
  lemma {:induction false} AbsoluteRoundTrip(d: seq<nat>, offset: nat)
    requires Absolute(d, offset).Some?
    ensures var idx := Absolute(d, offset).value;
      Increasing(idx) && (forall i | 0 <= i < |idx| :: idx[i] >= offset) && Differences(idx, offset) == d
    decreases |d|
  {
    hide Increasing;
    if d == [] {
      NoneIncreasing();
    } else {
      AbsoluteRoundTrip(d[1..], d[0] + offset + 1);
      var r := Absolute(d[1..], d[0] + offset + 1).value;
      IncreasingCons(d[0] + offset, r);
      assert ([d[0] + offset] + r)[1..] == r;
      assert d == [d[0]] + d[1..];
    }
  }

  lemma NoneIncreasing()
    ensures Increasing([])
  {
  }

  lemma IncreasingCons(x: nat, r: seq<nat>)
    requires x <= MAX_INDEX && Increasing(r) && forall i | 0 <= i < |r| :: r[i] > x
    ensures Increasing([x] + r)
  {
  }

  /** Indexes are at most as many as sixteen bits allow. */
  lemma {:induction false} IncreasingLength(idx: seq<nat>)
    requires Increasing(idx)
    ensures idx != [] ==> |idx| <= idx[|idx| - 1] + 1
    ensures |idx| <= MAX_INDEX + 1
    decreases |idx|
  {
    if idx != [] { IncreasingLength(idx[..|idx| - 1]); }
  }

  function NumbersBytes(d: seq<int>): seq<nat>
    requires AreDifferences(d)
  {
    if d == [] then [] else SizeBytes(d[0]) + NumbersBytes(d[1..])
  }

  /** A number of compact sizes of at most sixteen bits each. */
  function ReadNumbers(b: seq<nat>, n: nat): Option<(seq<nat>, seq<nat>)>
    decreases n
  {
    if n == 0 then Some(([], b))
    else
      match ReadSize(b)
      case None => None
      case Some(s) =>
        if s.0 > MAX_INDEX then None
        else
          match ReadNumbers(s.1, n - 1)
          case None => None
          case Some(r) => Some(([s.0] + r.0, r.1))
  }

  lemma {:induction false} NumbersRoundTrip(d: seq<int>, rest: seq<nat>)
    requires AreDifferences(d)
    ensures ReadNumbers(NumbersBytes(d) + rest, |d|) == Some((d, rest))
    decreases |d|
  {
    hide SizeBytes, ReadSize;
    var b := NumbersBytes(d) + rest;
    if d == [] {
      assert b == rest;
    } else {
      var tail := NumbersBytes(d[1..]) + rest;
      assert b == SizeBytes(d[0]) + tail;
      SizeRoundTrip(d[0], tail);
      NumbersRoundTrip(d[1..], rest);
      assert d == [d[0]] + d[1..];
    }
  }

  /** The list of indexes in a request, as bytes. */
  ghost function RequestBytes(idx: seq<nat>): seq<nat>
    requires Increasing(idx)
  {
    DifferencesRoundTrip(idx, 0);
    SizeBytes(|idx|) + NumbersBytes(Differences(idx, 0))
  }

  ghost function ReadRequest(b: seq<nat>): Option<(seq<nat>, seq<nat>)> {
    match ReadSize(b)
    case None => None
    case Some(s) =>
      match ReadNumbers(s.1, s.0)
      case None => None
      case Some(r) =>
        match Absolute(r.0, 0)
        case None => None
        case Some(idx) => Some((idx, r.1))
  }

  /** Reading a request inverts writing it. */
  lemma RequestRoundTrip(idx: seq<nat>, rest: seq<nat>)
    requires Increasing(idx)
    ensures ReadRequest(RequestBytes(idx) + rest) == Some((idx, rest))
  {
    hide SizeBytes, ReadSize, NumbersBytes, ReadNumbers, Absolute, Differences;
    DifferencesRoundTrip(idx, 0);
    IncreasingLength(idx);
    var d := Differences(idx, 0);
    assert RequestBytes(idx) + rest == SizeBytes(|idx|) + (NumbersBytes(d) + rest);
    SizeRoundTrip(|idx|, NumbersBytes(d) + rest);
    NumbersRoundTrip(d, rest);
  }

  class BlockTransactionsRequest {
    var indexes: seq<nat>

    constructor (indexes: seq<nat>)
      ensures this.indexes == indexes
    {
      this.indexes := indexes;
    }

    method Write() returns (b: seq<nat>)
      requires Increasing(indexes)
      ensures b == RequestBytes(indexes)
    {
      hide SizeBytes, Increasing;
      ghost var d := Differences(indexes, 0);
      DifferencesRoundTrip(indexes, 0);
      b := SizeBytes(|indexes|);
      ghost var head := b;
      for i := 0 to |indexes|
        invariant b + NumbersBytes(d[i..]) == head + NumbersBytes(d)
      {
        DifferenceAt(indexes, 0, i);
        var index := indexes[i] - (if i == 0 then 0 else indexes[i - 1] + 1);
        assert d[i..][0] == d[i] && d[i..][1..] == d[i + 1..];
        CatNumber(b, SizeBytes(d[i]), NumbersBytes(d[i + 1..]));
        b := b + SizeBytes(index);
      }
      assert b + [] == b;
    }

    /** Replaces the differences by indexes, in place. */
    method MakeAbsolute() returns (ok: bool)
      modifies this
      ensures match Absolute(old(indexes), 0) case None => !ok case Some(idx) => ok && indexes == idx
    {
      var offset := 0;
      ghost var d := indexes;
      assert d[0..] == d;
      AfterNone(Absolute(d, 0));
      for j := 0 to |indexes|
        invariant |indexes| == |d| && offset >= 0
        invariant indexes[j..] == d[j..]
        invariant Absolute(d, 0) == After(indexes[..j], Absolute(d[j..], offset))
      {
        assert d[j..][0] == d[j] == indexes[j] && d[j..][1..] == d[j + 1..];
        if indexes[j] + offset > MAX_INDEX {
          return false;
        }
        ghost var before := indexes[..j];
        AfterMore(before, indexes[j] + offset, Absolute(d[j + 1..], indexes[j] + offset + 1));
        indexes := indexes[j := indexes[j] + offset];
        assert indexes[..j + 1] == before + [indexes[j]];
        assert indexes[j + 1..] == d[j + 1..];
        offset := indexes[j] + 1;
      }
      assert indexes[..|indexes|] == indexes;
      return true;
    }
  }

  lemma CatNumber(b: seq<nat>, x: seq<nat>, y: seq<nat>)
    ensures b + (x + y) == b + x + y
  {
  }

  lemma {:induction false} DifferenceAt(idx: seq<nat>, offset: nat, i: nat)
    requires i < |idx|
    ensures |Differences(idx, offset)| == |idx|
    ensures Differences(idx, offset)[i] == idx[i] - (if i == 0 then offset else idx[i - 1] + 1)
    decreases |idx|
  {
    if i > 0 {
      DifferenceAt(idx[1..], idx[0] + 1, i - 1);
    } else if |idx| > 1 {
      DifferenceAt(idx[1..], idx[0] + 1, 0);
    }
  }

  function After(done: seq<nat>, r: Option<seq<nat>>): Option<seq<nat>> {
    match r
    case None => None
    case Some(v) => Some(done + v)
  }

  lemma AfterNone(r: Option<seq<nat>>)
    ensures After([], r) == r
  {
    if r.Some? { assert [] + r.value == r.value; }
  }

  lemma AfterMore(done: seq<nat>, x: nat, r: Option<seq<nat>>)
    ensures After(done, After([x], r)) == After(done + [x], r)
  {
    if r.Some? { assert done + ([x] + r.value) == done + [x] + r.value; }
  }

  // ---------------------------------------------------------------------------------------------
  // Compact blocks as values
  // ---------------------------------------------------------------------------------------------

  const MAX_TRANSACTIONS: nat := 4000000 / 40

  /** A transaction: its hash, and whether it has neither inputs nor outputs. */
  datatype Tx = Tx(hash: nat, isNull: bool, content: nat)

  /** A transaction sent whole, with its distance from the one after the last. */
  datatype Prefilled = Prefilled(index: nat, tx: Tx)

  datatype Message = Message(shorttxids: seq<nat>, prefilledtxn: seq<Prefilled>) {
    function TxCount(): nat { |shorttxids| + |prefilledtxn| }

    /** What reading a message demands of it. */
    predicate Valid() {
      TxCount() <= MAX_INDEX && forall i | 0 <= i < |prefilledtxn| :: prefilledtxn[i].index <= MAX_INDEX
    }
  }

  /** A slot of the block under construction. */
  type Slots = seq<Option<Tx>>

  /** How many slots are empty. */
  function Empty(s: Slots): (n: nat)
    ensures n <= |s|
  {
    if s == [] then 0 else Empty(s[..|s| - 1]) + (if s[|s| - 1].None? then 1 else 0)
  }

  lemma {:induction false} EmptyFill(s: Slots, p: nat, tx: Tx)
    requires p < |s| && s[p].None?
    ensures Empty(s[p := Some(tx)]) == Empty(s) - 1
    decreases |s|
  {
    var n, t := |s| - 1, s[p := Some(tx)];
    if p == n {
      assert t[..n] == s[..n];
    } else {
      assert t[..n] == s[..n][p := Some(tx)];
      EmptyFill(s[..n], p, tx);
    }
  }

  lemma {:induction false} EmptyBelow(s: Slots, p: nat)
    requires p <= |s|
    ensures Empty(s[..p]) <= Empty(s)
    ensures Empty(s[..p]) < Empty(s) ==> exists q | p <= q < |s| :: s[q].None?
    decreases |s|
  {
    if p == |s| {
      assert s[..p] == s;
    } else {
      var n := |s| - 1;
      assert s[..n][..p] == s[..p];
      EmptyBelow(s[..n], p);
      if Empty(s[..p]) < Empty(s[..n]) {
        var q :| p <= q < |s[..n]| && s[..n][q].None?;
        assert s[q].None?;
      }
    }
  }

  lemma {:induction false} AllEmpty(n: nat)
    ensures Empty(seq(n, _ => None)) == n
  {
    if n > 0 {
      var s: Slots := seq(n, _ => None);
      assert s[..n - 1] == seq(n - 1, _ => None);
      AllEmpty(n - 1);
    }
  }

  /** The slot of each prefilled transaction. */
  function PlaceOf(pre: seq<Prefilled>, i: nat): nat
    requires i < |pre|
  {
    if i == 0 then pre[0].index else PlaceOf(pre, i - 1) + pre[i].index + 1
  }

  /** The first k prefilled transactions are in their slots, and nothing else is. */
  ghost predicate Placed(s: Slots, pre: seq<Prefilled>, k: nat)
    requires k <= |pre|
  {
    && (forall i | 0 <= i < k :: PlaceOf(pre, i) < |s| && s[PlaceOf(pre, i)] == Some(pre[i].tx))
    && (forall p | 0 <= p < |s| && s[p].Some? :: exists i | 0 <= i < k :: PlaceOf(pre, i) == p)
    && Empty(s) + k == |s|
  }

  lemma PlaceNext(s: Slots, pre: seq<Prefilled>, k: nat)
    requires k < |pre| && Placed(s, pre, k) && PlaceOf(pre, k) < |s|
    ensures Placed(s[PlaceOf(pre, k) := Some(pre[k].tx)], pre, k + 1)
  {
    hide PlaceOf, Empty;
    var p := PlaceOf(pre, k);
    forall i: nat | i < k ensures PlaceOf(pre, i) < p { PlacesIncrease(pre, i, k); }
    assert s[p].None?;
    EmptyFill(s, p, pre[k].tx);
    var t := s[p := Some(pre[k].tx)];
    forall q | 0 <= q < |t| && t[q].Some? ensures exists i | 0 <= i < k + 1 :: PlaceOf(pre, i) == q {
      if q != p {
        var i :| 0 <= i < k && PlaceOf(pre, i) == q;
      }
    }
  }

  lemma {:induction false} PlacesIncrease(pre: seq<Prefilled>, i: nat, j: nat)
    requires i < j < |pre|
    ensures PlaceOf(pre, i) < PlaceOf(pre, j)
    decreases j
  {
    if i < j - 1 { PlacesIncrease(pre, i, j - 1); }
  }

  /** The short id that belongs to an empty slot. */
  function ShortAt(m: Message, s: Slots, p: nat): nat
    requires p <= |s| && Empty(s[..p]) < |m.shorttxids|
  {
    m.shorttxids[Empty(s[..p])]
  }

  // ---------------------------------------------------------------------------------------------
  // InitData
  // ---------------------------------------------------------------------------------------------

  datatype ReadStatus = OK | INVALID | FAILED | CHECKBLOCK_FAILED

  /** Short ids and the slots they belong to. */
  ghost predicate Indexed(m: Message, placed: Slots, ids: map<nat, nat>) {
    forall id | id in ids ::
      && ids[id] < |placed| && placed[ids[id]].None? && Empty(placed[..ids[id]]) < |m.shorttxids|
      && ShortAt(m, placed, ids[id]) == id
  }

  /** The slots while the pool is searched: prefilled ones stay, and an empty one may only be filled with a
      known transaction that has the short id belonging to it. */
  ghost predicate Sound(m: Message, placed: Slots, s: Slots, short: nat -> nat, known: set<Tx>) {
    && |s| == |placed|
    && (forall p | 0 <= p < |s| && placed[p].Some? :: s[p] == placed[p])
    && (forall p | 0 <= p < |s| && placed[p].None? && s[p].Some? ::
          && Empty(placed[..p]) < |m.shorttxids| && short(s[p].value.hash) == ShortAt(m, placed, p)
          && s[p].value in known)
  }

  /** Only slots that a transaction was found for have changed. */
  ghost predicate Marked(placed: Slots, s: Slots, have: seq<bool>) {
    |have| == |s| == |placed| && forall p | 0 <= p < |s| && !have[p] :: s[p] == placed[p]
  }

  /** How many slots hold a transaction that was found. */
  function Held(s: Slots, have: seq<bool>): nat
    requires |have| == |s|
  {
    if s == [] then 0
    else Held(s[..|s| - 1], have[..|s| - 1]) + (if have[|s| - 1] && s[|s| - 1].Some? then 1 else 0)
  }

  lemma {:induction false} HeldChange(s: Slots, have: seq<bool>, p: nat, x: Option<Tx>)
    requires |have| == |s| && p < |s|
    ensures Held(s[p := x], have[p := true]) + (if have[p] && s[p].Some? then 1 else 0)
         == Held(s, have) + (if x.Some? then 1 else 0)
    decreases |s|
  {
    var n, t, h := |s| - 1, s[p := x], have[p := true];
    if p == n {
      assert t[..n] == s[..n] && h[..n] == have[..n];
    } else {
      assert t[..n] == s[..n][p := x] && h[..n] == have[..n][p := true];
      HeldChange(s[..n], have[..n], p, x);
    }
  }

  lemma {:induction false} HeldNone(s: Slots, have: seq<bool>)
    requires |have| == |s| && forall p | 0 <= p < |s| :: !have[p]
    ensures Held(s, have) == 0
    decreases |s|
  {
    if s != [] { HeldNone(s[..|s| - 1], have[..|s| - 1]); }
  }

  /** Filling or emptying the slot of a short id keeps the slots sound. */
  lemma SoundChange(m: Message, placed: Slots, s: Slots, have: seq<bool>, short: nat -> nat, known: set<Tx>,
                    ids: map<nat, nat>, id: nat, x: Option<Tx>)
    requires Sound(m, placed, s, short, known) && Marked(placed, s, have) && Indexed(m, placed, ids) && id in ids
    requires x.Some? ==> short(x.value.hash) == id && x.value in known
    ensures ids[id] < |s| && placed[ids[id]].None?
    ensures Sound(m, placed, s[ids[id] := x], short, known) && Marked(placed, s[ids[id] := x], have[ids[id] := true])
  {
    hide Empty;
  }

  /** No two of these transactions share this short id. */
  ghost predicate Sole(short: nat -> nat, txs: set<Tx>, id: nat) {
    forall t, u | t in txs && u in txs && short(t.hash) == id && short(u.hash) == id :: t.hash == u.hash
  }

  ghost predicate DistinctHashes(txs: seq<Tx>) { forall i, j | 0 <= i < j < |txs| :: txs[i].hash != txs[j].hash }

  ghost predicate Offered(short: nat -> nat, offered: set<Tx>, id: nat) { exists t :: t in offered && short(t.hash) == id }

  /** The slots and marks while transactions are offered, and how many slots are held. */
  datatype Progress = Progress(slots: Slots, have: seq<bool>, count: int)

  /** One offer: the first one for a short id fills its slot, another one empties it. */
  function OfferOne(ids: map<nat, nat>, short: nat -> nat, extra: bool, g: Progress, tx: Tx): Progress {
    var id := short(tx.hash);
    if id !in ids || ids[id] >= |g.slots| || ids[id] >= |g.have| then g
    else if !g.have[ids[id]] then Progress(g.slots[ids[id] := Some(tx)], g.have[ids[id] := true], g.count + 1)
    else if g.slots[ids[id]].None? || (extra && g.slots[ids[id]].value.hash == tx.hash) then g
    else Progress(g.slots[ids[id] := None], g.have, g.count - 1)
  }

  /** Offers in order, until all slots are held. */
  function Searched(ids: map<nat, nat>, short: nat -> nat, extra: bool, g: Progress, txs: seq<Tx>): Progress
    decreases |txs|
  {
    if txs == [] then g
    else
      var g' := OfferOne(ids, short, extra, g, txs[0]);
      if g'.count == |ids| then g' else Searched(ids, short, extra, g', txs[1..])
  }

  /** What the marks mean: a slot is marked if a transaction with its short id was offered, and is then filled
      exactly if all such transactions were the same. This takes a pool that lists nothing twice (`fair`). */
  ghost predicate Found(ids: map<nat, nat>, s: Slots, have: seq<bool>, short: nat -> nat, offered: set<Tx>, fair: bool) {
    && |have| == |s|
    && (forall id | id in ids :: ids[id] < |s| && FoundAt(s[ids[id]], have[ids[id]], short, offered, fair, id))
    && (forall p | 0 <= p < |s| && have[p] :: p in ids.Values)
  }

  ghost predicate FoundAt(x: Option<Tx>, have: bool, short: nat -> nat, offered: set<Tx>, fair: bool, id: nat) {
    && (have <==> Offered(short, offered, id))
    && (have && x.Some? ==> x.value in offered && short(x.value.hash) == id)
    && (fair && have ==> (x.Some? <==> Sole(short, offered, id)))
  }

  lemma FoundNone(m: Message, placed: Slots, ids: map<nat, nat>, have: seq<bool>, short: nat -> nat, fair: bool)
    requires Indexed(m, placed, ids) && |have| == |placed| && forall p | 0 <= p < |have| :: !have[p]
    ensures Found(ids, placed, have, short, {}, fair)
  {
  }

  /** The effect of one more offer on its own slot, and on another one. */
  lemma FoundOwn(x: Option<Tx>, have: bool, short: nat -> nat, offered: set<Tx>, fair: bool, extra: bool, tx: Tx)
    requires FoundAt(x, have, short, offered, fair, short(tx.hash))
    requires fair && !extra ==> forall t | t in offered :: t.hash != tx.hash
    ensures FoundAt(if !have then Some(tx) else if x.None? || (extra && x.value.hash == tx.hash) then x else None,
                    true, short, offered + {tx}, fair, short(tx.hash))
  {
    assert tx in offered + {tx};
    if have {
      var t :| t in offered && short(t.hash) == short(tx.hash);
      assert t in offered + {tx};
      if fair && x.None? { SoleFewer(short, offered, offered + {tx}, short(tx.hash)); }
    }
  }

  lemma FoundOther(x: Option<Tx>, have: bool, short: nat -> nat, offered: set<Tx>, fair: bool, id: nat, tx: Tx)
    requires FoundAt(x, have, short, offered, fair, id) && short(tx.hash) != id
    ensures FoundAt(x, have, short, offered + {tx}, fair, id)
  {
    if Offered(short, offered, id) {
      var t :| t in offered && short(t.hash) == id;
      assert t in offered + {tx};
    }
    if Sole(short, offered, id) { assert Sole(short, offered + {tx}, id); } else { SoleFewer(short, offered, offered + {tx}, id); }
  }

  lemma SoleFewer(short: nat -> nat, fewer: set<Tx>, txs: set<Tx>, id: nat)
    requires fewer <= txs
    ensures Sole(short, txs, id) ==> Sole(short, fewer, id)
  {
  }

  lemma FoundOffer(m: Message, placed: Slots, ids: map<nat, nat>, g: Progress, short: nat -> nat, offered: set<Tx>, fair: bool,
                   extra: bool, tx: Tx)
    requires Indexed(m, placed, ids) && Found(ids, g.slots, g.have, short, offered, fair)
    requires fair && !extra ==> forall t | t in offered :: t.hash != tx.hash
    ensures var g' := OfferOne(ids, short, extra, g, tx);
      Found(ids, g'.slots, g'.have, short, offered + {tx}, fair) && Grows(g.have, g'.have)
  {
    hide FoundAt, ShortAt;
    var g', id := OfferOne(ids, short, extra, g, tx), short(tx.hash);
    if id in ids {
      assert ids[id] in ids.Values;
      FoundOwn(g.slots[ids[id]], g.have[ids[id]], short, offered, fair, extra, tx);
    }
    forall i | i in ids ensures FoundAt(g'.slots[ids[i]], g'.have[ids[i]], short, offered + {tx}, fair, i) {
      if i != id {
        if id in ids { assert ShortAt(m, placed, ids[i]) == i && ShortAt(m, placed, ids[id]) == id; }
        FoundOther(g.slots[ids[i]], g.have[ids[i]], short, offered, fair, i, tx);
      }
    }
  }

  /** The slots that hold a transaction that was found. */
  ghost function HeldSlots(s: Slots, have: seq<bool>): set<nat>
    requires |have| == |s|
  {
    set p: nat | p < |s| && have[p] && s[p].Some?
  }

  lemma {:induction false} HeldCount(s: Slots, have: seq<bool>)
    requires |have| == |s|
    ensures |HeldSlots(s, have)| == Held(s, have)
    decreases |s|
  {
    if s != [] {
      var n: nat := |s| - 1;
      HeldCount(s[..n], have[..n]);
      var rest := HeldSlots(s[..n], have[..n]);
      assert HeldSlots(s, have) == if have[n] && s[n].Some? then rest + {n} else rest;
    }
  }

  lemma {:induction false} ValuesCount(ids: map<nat, nat>)
    ensures |ids.Values| <= |ids|
    decreases |ids|
  {
    if ids != map[] {
      var id :| id in ids;
      var rest := ids - {id};
      assert rest.Keys == ids.Keys - {id};
      ValuesCount(rest);
      forall v | v in ids.Values ensures v in rest.Values + {ids[id]} {
        var k :| k in ids && ids[k] == v;
        if k != id { assert k in rest && rest[k] == v; }
      }
      SubsetCount(ids.Values, rest.Values + {ids[id]});
    }
  }

  lemma {:induction false} SubsetCount(a: set<nat>, b: set<nat>)
    requires a <= b
    ensures |a| <= |b| && (|a| == |b| ==> a == b)
    decreases a
  {
    if a == {} {
      assert |b| == 0 ==> b == {};
    } else {
      var x :| x in a;
      SubsetCount(a - {x}, b - {x});
    }
  }

  /** The early exit: as many transactions as short ids, so every slot is marked. */
  lemma AllHeld(ids: map<nat, nat>, s: Slots, have: seq<bool>, short: nat -> nat, offered: set<Tx>, fair: bool)
    requires Found(ids, s, have, short, offered, fair) && Held(s, have) == |ids|
    ensures forall id | id in ids :: have[ids[id]]
  {
    hide Held;
    HeldCount(s, have);
    ValuesCount(ids);
    assert HeldSlots(s, have) <= ids.Values;
    SubsetCount(HeldSlots(s, have), ids.Values);
    forall id | id in ids ensures have[ids[id]] { assert ids[id] in ids.Values; }
  }

  /** No mark is taken back. */
  ghost predicate Grows(have: seq<bool>, have': seq<bool>) {
    |have| == |have'| && forall p | 0 <= p < |have| && have[p] :: have'[p]
  }

  ghost predicate IsMarked(ids: map<nat, nat>, have: seq<bool>, id: nat) {
    id in ids ==> ids[id] < |have| && have[ids[id]]
  }

  lemma StaysMarked(ids: map<nat, nat>, have: seq<bool>, have': seq<bool>, id: nat)
    requires Grows(have, have')
    ensures IsMarked(ids, have, id) ==> IsMarked(ids, have', id)
  {
  }

  lemma AllMarked(ids: map<nat, nat>, s: Slots, have: seq<bool>, short: nat -> nat, offered: set<Tx>, fair: bool)
    requires Found(ids, s, have, short, offered, fair) && Held(s, have) == |ids|
    ensures forall id :: IsMarked(ids, have, id)
  {
    hide Held;
    AllHeld(ids, s, have, short, offered, fair);
  }

  lemma OfferedMarked(ids: map<nat, nat>, s: Slots, have: seq<bool>, short: nat -> nat, offered: set<Tx>, fair: bool)
    requires Found(ids, s, have, short, offered, fair)
    ensures forall t | t in offered :: IsMarked(ids, have, short(t.hash))
  {
    forall t | t in offered ensures Offered(short, offered, short(t.hash)) { }
  }

  /** No known transaction whose short id is unambiguous is missing from its slot. */
  ghost predicate Complete(m: Message, placed: Slots, s: Slots, short: nat -> nat, known: set<Tx>) {
    && |s| == |placed|
    && forall p, t | 0 <= p < |s| && placed[p].None? && t in known && Empty(placed[..p]) < |m.shorttxids|
         && short(t.hash) == ShortAt(m, placed, p) && Sole(short, known, short(t.hash)) :: s[p].Some?
  }

  lemma {:induction false} RankIncreases(s: Slots, p: nat, q: nat)
    requires p < q <= |s| && s[p].None?
    ensures Empty(s[..p]) < Empty(s[..q])
    decreases q
  {
    hide Empty;
    EmptyNext(s, q - 1);
    if p < q - 1 { RankIncreases(s, p, q - 1); }
  }

  lemma SlotOf(m: Message, placed: Slots, ids: map<nat, nat>, p: nat)
    requires Indexed(m, placed, ids) && Distinct(m.shorttxids) && (forall id | id in m.shorttxids :: id in ids)
    requires p < |placed| && placed[p].None? && Empty(placed[..p]) < |m.shorttxids|
    ensures ShortAt(m, placed, p) in ids && ids[ShortAt(m, placed, p)] == p
  {
    hide Empty;
    var q := ids[ShortAt(m, placed, p)];
    if p < q { RankIncreases(placed, p, q); }
    if q < p { RankIncreases(placed, q, p); }
  }

  lemma FoundComplete(m: Message, placed: Slots, ids: map<nat, nat>, s: Slots, have: seq<bool>, short: nat -> nat,
                      known: set<Tx>, offered: set<Tx>)
    requires Indexed(m, placed, ids) && Distinct(m.shorttxids) && (forall id | id in m.shorttxids :: id in ids)
    requires Found(ids, s, have, short, offered, true) && offered <= known && |s| == |placed|
    requires forall t | t in known :: IsMarked(ids, have, short(t.hash))
    ensures Complete(m, placed, s, short, known)
  {
    hide Empty, Sole, Indexed, Distinct;
    forall p, t | 0 <= p < |s| && placed[p].None? && t in known && Empty(placed[..p]) < |m.shorttxids|
        && short(t.hash) == ShortAt(m, placed, p) && Sole(short, known, short(t.hash))
      ensures s[p].Some?
    {
      SlotOf(m, placed, ids, p);
      SoleFewer(short, offered, known, short(t.hash));
    }
  }

  /** Every slot for a short id is filled exactly if the transactions offered for it were all the same. */
  ghost predicate Answered(m: Message, placed: Slots, s: Slots, short: nat -> nat, offered: set<Tx>) {
    && |s| == |placed|
    && forall p | 0 <= p < |s| && placed[p].None? && Empty(placed[..p]) < |m.shorttxids| ::
         s[p].Some? <==> Offered(short, offered, ShortAt(m, placed, p)) && Sole(short, offered, ShortAt(m, placed, p))
  }

  lemma FoundAnswers(m: Message, placed: Slots, ids: map<nat, nat>, s: Slots, have: seq<bool>, short: nat -> nat, offered: set<Tx>)
    requires Indexed(m, placed, ids) && Distinct(m.shorttxids) && (forall id | id in m.shorttxids :: id in ids)
    requires Found(ids, s, have, short, offered, true) && Marked(placed, s, have)
    ensures Answered(m, placed, s, short, offered)
  {
    hide Empty, Sole, Indexed, Distinct, Offered;
    forall p | 0 <= p < |s| && placed[p].None? && Empty(placed[..p]) < |m.shorttxids|
      ensures s[p].Some? <==> Offered(short, offered, ShortAt(m, placed, p)) && Sole(short, offered, ShortAt(m, placed, p))
    {
      SlotOf(m, placed, ids, p);
    }
  }

  /** What a message must be like to be taken up. */
  ghost predicate Acceptable(m: Message) {
    && 0 < m.TxCount() <= MAX_TRANSACTIONS
    && forall i | 0 <= i < |m.prefilledtxn| :: Fits(m, i)
  }

  ghost predicate Fits(m: Message, i: nat)
    requires i < |m.prefilledtxn|
  {
    var place := PlaceOf(m.prefilledtxn, i);
    !m.prefilledtxn[i].tx.isNull && place <= MAX_INDEX && place <= |m.shorttxids| + i
  }

  ghost predicate Distinct(s: seq<nat>) { forall i, j | 0 <= i < j < |s| :: s[i] != s[j] }

  class PartiallyDownloadedBlock {
    /** Is the header set? */
    var started: bool
    var txn_available: Slots
    var prefilled_count: nat
    var mempool_count: nat

    constructor ()
      ensures !started && txn_available == [] && mempool_count == 0
    {
      started, txn_available, prefilled_count, mempool_count := false, [], 0, 0;
    }

    method PlacePrefilled(m: Message) returns (ok: bool)
      requires m.Valid() && txn_available == seq(m.TxCount(), _ => None)
      modifies this`txn_available
      ensures ok <==> forall i | 0 <= i < |m.prefilledtxn| :: Fits(m, i)
      ensures ok ==> Placed(txn_available, m.prefilledtxn, |m.prefilledtxn|) && |txn_available| == m.TxCount()
    {
      hide Placed;
      var lastprefilledindex := -1;
      AllEmpty(m.TxCount());
      NonePlaced(txn_available, m.prefilledtxn);
      for i := 0 to |m.prefilledtxn|
        invariant |txn_available| == m.TxCount() && Placed(txn_available, m.prefilledtxn, i)
        invariant lastprefilledindex == if i == 0 then -1 else PlaceOf(m.prefilledtxn, i - 1)
        invariant forall j | 0 <= j < i :: Fits(m, j)
      {
        if m.prefilledtxn[i].tx.isNull {
          assert !Fits(m, i);
          return false;
        }
        lastprefilledindex := lastprefilledindex + m.prefilledtxn[i].index + 1;
        if lastprefilledindex > MAX_INDEX {
          assert !Fits(m, i);
          return false;
        }
        if lastprefilledindex > |m.shorttxids| + i {
          assert !Fits(m, i);
          return false;
        }
        PlaceNext(txn_available, m.prefilledtxn, i);
        txn_available := txn_available[lastprefilledindex := Some(m.prefilledtxn[i].tx)];
      }
      return true;
    }

    /** The first empty slot from a place on, which is within the block. */
    method SkipFilled(i: nat, index_offset: nat) returns (index_offset': nat)
      requires i + index_offset <= |txn_available| && Empty(txn_available[..i + index_offset]) == i < Empty(txn_available)
      ensures i + index_offset' < |txn_available| && txn_available[i + index_offset'].None?
      ensures Empty(txn_available[..i + index_offset']) == i
    {
      hide Empty;
      index_offset' := index_offset;
      EmptyBelow(txn_available, i + index_offset');
      while txn_available[i + index_offset'].Some?
        invariant i + index_offset' < |txn_available| && Empty(txn_available[..i + index_offset']) == i
        decreases |txn_available| - index_offset'
      {
        EmptyNext(txn_available, i + index_offset');
        EmptyBelow(txn_available, i + index_offset' + 1);
        index_offset' := index_offset' + 1;
      }
    }

    /** Finds the slot of each short id: each time the next empty one. */
    method IndexShortIds(m: Message, crowded: nat -> bool) returns (ok: bool, ids: map<nat, nat>)
      requires Empty(txn_available) == |m.shorttxids|
      ensures ok <==> Distinct(m.shorttxids) && forall i | 0 <= i < |m.shorttxids| :: !crowded(i)
      ensures ok ==> Indexed(m, txn_available, ids) && forall id | id in m.shorttxids :: id in ids
    {
      hide Empty, Distinct, Indexed, KeysOf;
      ids := map[];
      var index_offset: nat := 0;
      EmptyNone(txn_available);
      NoneIndexed(m, txn_available);
      for i := 0 to |m.shorttxids|
        invariant i + index_offset <= |txn_available| && Empty(txn_available[..i + index_offset]) == i
        invariant Indexed(m, txn_available, ids) && KeysOf(ids, m.shorttxids, i)
        invariant forall j | 0 <= j < i :: !crowded(j)
      {
        index_offset := SkipFilled(i, index_offset);
        EmptyNext(txn_available, i + index_offset);
        IndexNext(m, txn_available, ids, i, i + index_offset);
        ids := ids[m.shorttxids[i] := i + index_offset];
        if crowded(i) {
          return false, ids;
        }
      }
      KeysEnd(ids, m.shorttxids);
      return |ids| == |m.shorttxids|, ids;
    }

    ghost function Now(have: seq<bool>): Progress
      reads this
    {
      Progress(txn_available, have, mempool_count)
    }

    /** One transaction of the memory pool or, with the comparison of hashes, of the extra ones. */
    method Offer(tx: Tx, extra: bool, ids: map<nat, nat>, have: seq<bool>, short: nat -> nat,
                 ghost m: Message, ghost placed: Slots, ghost known: set<Tx>)
      returns (have': seq<bool>)
      requires Sound(m, placed, txn_available, short, known) && Marked(placed, txn_available, have)
      requires Indexed(m, placed, ids) && mempool_count == Held(txn_available, have) && tx in known
      modifies this`txn_available, this`mempool_count
      ensures Sound(m, placed, txn_available, short, known) && Marked(placed, txn_available, have')
      ensures mempool_count == Held(txn_available, have')
      ensures Now(have') == OfferOne(ids, short, extra, old(Now(have)), tx)
    {
      hide Sound, Marked, Held, Empty, Indexed;
      have' := have;
      var shortid := short(tx.hash);
      if shortid in ids {
        var p := ids[shortid];
        SoundChange(m, placed, txn_available, have, short, known, ids, shortid, Some(tx));
        SoundChange(m, placed, txn_available, have, short, known, ids, shortid, None);
        SameLength(placed, txn_available, have);
        HeldChange(txn_available, have, p, Some(tx));
        HeldChange(txn_available, have, p, None);
        if !have[p] {
          txn_available := txn_available[p := Some(tx)];
          have' := have[p := true];
          mempool_count := mempool_count + 1;
        } else if txn_available[p].Some? && (!extra || txn_available[p].value.hash != tx.hash) {
          assert have[p := true] == have;
          txn_available := txn_available[p := None];
          mempool_count := mempool_count - 1;
        }
      }
    }

    /** Offers transactions until every short id has one. */
    method Search(txs: seq<Tx>, extra: bool, ids: map<nat, nat>, have: seq<bool>, short: nat -> nat,
                  ghost m: Message, ghost placed: Slots, ghost known: set<Tx>, ghost offered: set<Tx>, ghost fair: bool)
      returns (have': seq<bool>, ghost offered': set<Tx>)
      requires Sound(m, placed, txn_available, short, known) && Marked(placed, txn_available, have)
      requires Indexed(m, placed, ids) && mempool_count == Held(txn_available, have)
      requires Found(ids, txn_available, have, short, offered, fair) && offered <= known
      requires fair && !extra ==> offered == {} && DistinctHashes(txs)
      requires forall i | 0 <= i < |txs| :: txs[i] in known
      modifies this`txn_available, this`mempool_count
      ensures Sound(m, placed, txn_available, short, known) && Marked(placed, txn_available, have')
      ensures mempool_count == Held(txn_available, have')
      ensures Found(ids, txn_available, have', short, offered', fair) && offered <= offered' <= known
      ensures Grows(have, have') && Now(have') == Searched(ids, short, extra, old(Now(have)), txs)
      ensures forall i | 0 <= i < |txs| :: IsMarked(ids, have', short(txs[i].hash))
    {
      hide Sound, Held, Indexed, Found, OfferOne;
      have', offered' := have, offered;
      assert txs[0..] == txs;
      for i := 0 to |txs|
        invariant Sound(m, placed, txn_available, short, known) && Marked(placed, txn_available, have')
        invariant mempool_count == Held(txn_available, have')
        invariant Found(ids, txn_available, have', short, offered', fair) && Grows(have, have')
        invariant offered' == offered + (set t | t in txs[..i]) && offered' <= known
        invariant Searched(ids, short, extra, Now(have'), txs[i..]) == Searched(ids, short, extra, old(Now(have)), txs)
      {
        assert txs[..i + 1] == txs[..i] + [txs[i]] && txs[i..][1..] == txs[i + 1..];
        FoundOffer(m, placed, ids, Now(have'), short, offered', fair, extra, txs[i]);
        have' := Offer(txs[i], extra, ids, have', short, m, placed, known);
        offered' := offered' + {txs[i]};
        if mempool_count == |ids| {
          SameLength(placed, txn_available, have');
          AllMarked(ids, txn_available, have', short, offered', fair);
          return;
        }
      }
      assert txs[..|txs|] == txs;
      OfferedMarked(ids, txn_available, have', short, offered', fair);
    }

    /** First the memory pool, then the extra transactions. */
    method SearchAll(m: Message, pool: seq<Tx>, extra_txn: seq<Tx>, ids: map<nat, nat>, have: seq<bool>, short: nat -> nat,
                     ghost placed: Slots)
      returns (have': seq<bool>, ghost offered: set<Tx>)
      requires Indexed(m, placed, ids) && Distinct(m.shorttxids) && forall id | id in m.shorttxids :: id in ids
      requires txn_available == placed && mempool_count == 0 && |have| == |placed| && forall p | 0 <= p < |have| :: !have[p]
      modifies this`txn_available, this`mempool_count
      ensures |txn_available| == |placed| && Sound(m, placed, txn_available, short, Known(pool, extra_txn))
      ensures Now(have') == Searched(ids, short, true, Searched(ids, short, false, Progress(placed, have, 0), pool), extra_txn)
      ensures DistinctHashes(pool) ==> Complete(m, placed, txn_available, short, Known(pool, extra_txn))
      ensures offered <= Known(pool, extra_txn) && (DistinctHashes(pool) ==> Answered(m, placed, txn_available, short, offered))
    {
      hide Sound, Held, Empty, Indexed, Distinct, Found, Complete, Answered, IsMarked, DistinctHashes, Marked, Searched;
      ghost var known, fair := Known(pool, extra_txn), DistinctHashes(pool);
      StartSound(m, placed, have, short, known);
      FoundNone(m, placed, ids, have, short, fair);
      have', offered := Search(pool, false, ids, have, short, m, placed, known, {}, fair);
      ghost var before := have';
      have', offered := Search(extra_txn, true, ids, have', short, m, placed, known, offered, fair);
      SoundLength(m, placed, txn_available, short, known);
      forall t | t in known ensures IsMarked(ids, have', short(t.hash)) {
        StaysMarked(ids, before, have', short(t.hash));
      }
      if fair {
        FoundComplete(m, placed, ids, txn_available, have', short, known, offered);
        FoundAnswers(m, placed, ids, txn_available, have', short, offered);
      }
    }

    method InitData(m: Message, headerIsNull: bool, pool: seq<Tx>, extra_txn: seq<Tx>, short: nat -> nat,
                    crowded: nat -> bool)
      returns (status: ReadStatus, ghost placed: Slots, ghost ids: map<nat, nat>, ghost offered: set<Tx>)
      requires m.Valid() && !started && txn_available == [] && mempool_count == 0
      modifies this
      ensures status == INVALID <==> headerIsNull || !Acceptable(m)
      ensures status == OK <==>
        !headerIsNull && Acceptable(m) && Distinct(m.shorttxids) && forall i | 0 <= i < |m.shorttxids| :: !crowded(i)
      ensures status == OK || status == INVALID || status == FAILED
      ensures status == OK ==>
        && started && |txn_available| == m.TxCount() && Distinct(m.shorttxids)
        && Placed(placed, m.prefilledtxn, |m.prefilledtxn|)
        && Sound(m, placed, txn_available, short, Known(pool, extra_txn))
        && (DistinctHashes(pool) ==> Complete(m, placed, txn_available, short, Known(pool, extra_txn)))
      ensures status == OK ==>
        && prefilled_count == |m.prefilledtxn| && Indexed(m, placed, ids) && (forall id | id in m.shorttxids :: id in ids)
        && var start := Progress(placed, seq(|placed|, _ => false), 0);
        var end := Searched(ids, short, true, Searched(ids, short, false, start, pool), extra_txn);
        && txn_available == end.slots && mempool_count == end.count
        && offered <= Known(pool, extra_txn) && (DistinctHashes(pool) ==> Answered(m, placed, txn_available, short, offered))
    {
      hide Placed, Sound, Held, Empty, Indexed, Distinct, Fits, Found, Complete, Answered, IsMarked, Searched;
      placed, ids, offered := [], map[], {};
      if headerIsNull || (m.shorttxids == [] && m.prefilledtxn == []) {
        return INVALID, placed, ids, offered;
      }
      if |m.shorttxids| + |m.prefilledtxn| > MAX_TRANSACTIONS {
        return INVALID, placed, ids, offered;
      }
      started := true;
      txn_available := seq(m.TxCount(), _ => None);
      var ok := PlacePrefilled(m);
      if !ok {
        return INVALID, placed, ids, offered;
      }
      prefilled_count := |m.prefilledtxn|;
      placed := txn_available;
      PlacedCount(placed, m.prefilledtxn);
      var indexed, shorttxids := IndexShortIds(m, crowded);
      ids := shorttxids;
      if !indexed {
        return FAILED, placed, ids, offered;
      }
      var have := seq(|txn_available|, _ => false);
      have, offered := SearchAll(m, pool, extra_txn, shorttxids, have, short, placed);
      status := OK;
    }

    method FillBlock(vtx_missing: seq<Tx>, check: seq<Tx> -> CheckResult) returns (status: ReadStatus, block: seq<Tx>)
      requires started
      modifies this
      ensures old(Empty(txn_available)) > |vtx_missing| ==>
        && status == INVALID && started && |txn_available| == old(|txn_available|)
        && forall p | 0 <= p < |txn_available| :: txn_available[p].None? || txn_available[p] == old(txn_available[p])
      ensures old(Empty(txn_available)) <= |vtx_missing| ==>
        && !started && txn_available == [] && block == Filled(old(txn_available), vtx_missing)
        && status == (if old(Empty(txn_available)) < |vtx_missing| then INVALID else
                      match check(block) case Good => OK case Mutated => FAILED case Bad => CHECKBLOCK_FAILED)
    {
      hide Empty, Filled;
      ghost var s := txn_available;
      block := [];
      var offset := 0;
      FilledNone(s, vtx_missing);
      for i := 0 to |txn_available|
        invariant started && |txn_available| == |s| && forall p | i <= p < |s| :: txn_available[p] == s[p]
        invariant forall p | 0 <= p < i :: txn_available[p].None?
        invariant offset == Empty(s[..i]) <= |vtx_missing| && block == Filled(s[..i], vtx_missing)
      {
        EmptyNext(s, i);
        EmptyBelow(s, i + 1);
        if txn_available[i].None? {
          if |vtx_missing| <= offset {
            return INVALID, block;
          }
          FilledNext(s, i, vtx_missing);
          block := block + [vtx_missing[offset]];
          offset := offset + 1;
        } else {
          FilledNext(s, i, vtx_missing);
          block := block + [txn_available[i].value];
          txn_available := txn_available[i := None];
        }
      }
      assert s[..|s|] == s;
      started := false;
      txn_available := [];
      if |vtx_missing| != offset {
        return INVALID, block;
      }
      match check(block) {
        case Good => status := OK;
        case Mutated => status := FAILED;
        case Bad => status := CHECKBLOCK_FAILED;
      }
    }
  }

  datatype CheckResult = Good | Mutated | Bad

  function Known(pool: seq<Tx>, extra: seq<Tx>): (k: set<Tx>)
    ensures (forall i | 0 <= i < |pool| :: pool[i] in k) && forall i | 0 <= i < |extra| :: extra[i] in k
  {
    (set tx | tx in pool) + (set tx | tx in extra)
  }

  lemma NonePlaced(s: Slots, pre: seq<Prefilled>)
    requires (forall p | 0 <= p < |s| :: s[p].None?) && Empty(s) == |s|
    ensures Placed(s, pre, 0)
  {
  }

  lemma PlacedCount(s: Slots, pre: seq<Prefilled>)
    requires Placed(s, pre, |pre|)
    ensures Empty(s) + |pre| == |s|
  {
  }

  lemma EmptyNone(s: Slots)
    ensures Empty(s[..0]) == 0
  {
  }

  lemma EmptyNext(s: Slots, p: nat)
    requires p < |s|
    ensures Empty(s[..p + 1]) == Empty(s[..p]) + if s[p].None? then 1 else 0
  {
    assert s[..p + 1][..p] == s[..p];
  }

  /** The keys are the first short ids, and as many as these exactly if they are distinct. */
  ghost predicate KeysOf(ids: map<nat, nat>, s: seq<nat>, i: nat) {
    && i <= |s| && (forall id :: id in ids <==> id in s[..i])
    && |ids| <= i && (|ids| == i <==> Distinct(s[..i]))
  }

  lemma NoneIndexed(m: Message, placed: Slots)
    ensures Indexed(m, placed, map[]) && KeysOf(map[], m.shorttxids, 0)
  {
  }

  lemma IndexNext(m: Message, placed: Slots, ids: map<nat, nat>, i: nat, p: nat)
    requires Indexed(m, placed, ids) && KeysOf(ids, m.shorttxids, i) && i < |m.shorttxids|
    requires p < |placed| && placed[p].None? && Empty(placed[..p]) == i
    ensures Indexed(m, placed, ids[m.shorttxids[i] := p]) && KeysOf(ids[m.shorttxids[i] := p], m.shorttxids, i + 1)
  {
    hide Empty;
    var s := m.shorttxids;
    var a, b := s[..i], s[..i + 1];
    assert b == a + [s[i]];
    DistinctSnoc(a, s[i]);
    hide Distinct;
  }

  lemma DistinctSnoc(a: seq<nat>, x: nat)
    ensures Distinct(a + [x]) <==> Distinct(a) && x !in a
  {
    var b := a + [x];
    if Distinct(b) {
      forall j, k | 0 <= j < k < |a| ensures a[j] != a[k] { assert b[j] != b[k]; }
      forall j | 0 <= j < |a| ensures a[j] != x { assert b[j] != b[|a|]; }
    }
  }

  lemma KeysEnd(ids: map<nat, nat>, s: seq<nat>)
    requires KeysOf(ids, s, |s|)
    ensures |ids| == |s| <==> Distinct(s)
    ensures forall id | id in s :: id in ids
  {
    assert s[..|s|] == s;
  }

  lemma SameLength(placed: Slots, s: Slots, have: seq<bool>)
    requires Marked(placed, s, have)
    ensures |have| == |s|
  {
  }

  lemma StartSound(m: Message, placed: Slots, have: seq<bool>, short: nat -> nat, known: set<Tx>)
    requires |have| == |placed| && forall p | 0 <= p < |have| :: !have[p]
    ensures Sound(m, placed, placed, short, known) && Marked(placed, placed, have) && Held(placed, have) == 0
  {
    HeldNone(placed, have);
  }

  lemma SoundLength(m: Message, placed: Slots, s: Slots, short: nat -> nat, known: set<Tx>)
    requires Sound(m, placed, s, short, known)
    ensures |s| == |placed|
  {
  }

  // ---------------------------------------------------------------------------------------------
  // Putting the block together
  // ---------------------------------------------------------------------------------------------

  /** The slots with the missing transactions put into the empty ones, in order. */
  function Filled(s: Slots, missing: seq<Tx>): (b: seq<Tx>)
    requires Empty(s) <= |missing|
    ensures |b| == |s|
  {
    if s == [] then []
    else
      var n := |s| - 1;
      Filled(s[..n], missing) + [if s[n].Some? then s[n].value else missing[Empty(s[..n])]]
  }

  lemma FilledNone(s: Slots, missing: seq<Tx>)
    ensures Empty(s[..0]) == 0 && Filled(s[..0], missing) == []
  {
  }

  lemma FilledNext(s: Slots, p: nat, missing: seq<Tx>)
    requires p < |s| && Empty(s[..p + 1]) <= |missing| && Empty(s[..p]) <= |missing|
    requires s[p].None? ==> Empty(s[..p]) < |missing|
    ensures Filled(s[..p + 1], missing)
         == Filled(s[..p], missing) + [if s[p].Some? then s[p].value else missing[Empty(s[..p])]]
  {
    assert s[..p + 1][..p] == s[..p];
  }

  /** The slots hold nothing but the block's transactions, each in its place. */
  ghost predicate Agree(s: Slots, block: seq<Tx>) {
    |s| == |block| && forall p | 0 <= p < |s| && s[p].Some? :: s[p].value == block[p]
  }

  /** The block's transactions for the empty slots, in order: what is to be requested. */
  function Missing(s: Slots, block: seq<Tx>): (r: seq<Tx>)
    requires |s| == |block|
    ensures |r| == Empty(s)
  {
    if s == [] then []
    else
      var n := |s| - 1;
      Missing(s[..n], block[..n]) + (if s[n].None? then [block[n]] else [])
  }

  lemma {:induction false} FilledAt(s: Slots, missing: seq<Tx>, p: nat)
    requires Empty(s) <= |missing| && p < |s|
    ensures Empty(s[..p]) <= |missing| && (s[p].None? ==> Empty(s[..p]) < |missing|)
    ensures Filled(s, missing)[p] == if s[p].Some? then s[p].value else missing[Empty(s[..p])]
    decreases |s|
  {
    var n := |s| - 1;
    if p < n {
      FilledAt(s[..n], missing, p);
      assert s[..n][..p] == s[..p];
    }
  }

  lemma {:induction false} MissingAt(s: Slots, block: seq<Tx>, p: nat)
    requires |s| == |block| && p < |s| && s[p].None?
    ensures Empty(s[..p]) < |Missing(s, block)| && Missing(s, block)[Empty(s[..p])] == block[p]
    decreases |s|
  {
    var n := |s| - 1;
    if p < n {
      MissingAt(s[..n], block[..n], p);
      assert s[..n][..p] == s[..p];
    }
  }

  /** With exactly the missing transactions, the block is rebuilt. */
  lemma Rebuilds(s: Slots, block: seq<Tx>)
    requires Agree(s, block)
    ensures Filled(s, Missing(s, block)) == block
  {
    hide Empty, Filled, Missing;
    forall p | 0 <= p < |s| ensures Filled(s, Missing(s, block))[p] == block[p] {
      FilledAt(s, Missing(s, block), p);
      if s[p].None? { MissingAt(s, block, p); }
    }
  }

  /** A message for a block: prefilled transactions in their places, and the short ids of the others in order. */
  ghost predicate Describes(m: Message, placed: Slots, block: seq<Tx>, short: nat -> nat) {
    && |placed| == |block| == m.TxCount()
    && (forall p | 0 <= p < |block| && placed[p].Some? :: placed[p].value == block[p])
    && (forall p | 0 <= p < |block| && placed[p].None? ::
          Empty(placed[..p]) < |m.shorttxids| && ShortAt(m, placed, p) == short(block[p].hash))
  }

  /** No other known transaction has the short id of one in the block. */
  ghost predicate CollisionFree(block: seq<Tx>, known: set<Tx>, short: nat -> nat) {
    forall tx, p | tx in known && 0 <= p < |block| && short(tx.hash) == short(block[p].hash) :: tx == block[p]
  }

  lemma SoundAgrees(m: Message, placed: Slots, s: Slots, block: seq<Tx>, short: nat -> nat, known: set<Tx>)
    requires Describes(m, placed, block, short) && Sound(m, placed, s, short, known) && CollisionFree(block, known, short)
    ensures Agree(s, block)
  {
    hide Empty;
    forall p | 0 <= p < |s| && s[p].Some? ensures s[p].value == block[p] {
      if placed[p].None? { assert short(s[p].value.hash) == short(block[p].hash); }
    }
  }

  /** The message that is sent for a block: the first transaction whole, short ids for the others. */
  function MessageFor(block: seq<Tx>, short: nat -> nat): Message
    requires block != []
  {
    Message(seq<nat>(|block| - 1, i requires 0 <= i < |block| - 1 => short(block[i + 1].hash)), [Prefilled(0, block[0])])
  }

  lemma MessageDescribes(block: seq<Tx>, short: nat -> nat, placed: Slots)
    requires block != [] && |placed| == |block|
    requires var m := MessageFor(block, short); Placed(placed, m.prefilledtxn, |m.prefilledtxn|)
    ensures Describes(MessageFor(block, short), placed, block, short)
  {
    hide Empty;
    var m := MessageFor(block, short);
    assert PlaceOf(m.prefilledtxn, 0) == 0;
    forall p | 1 <= p < |block| ensures placed[p].None? && Empty(placed[..p]) == p - 1 {
      assert forall q | 1 <= q < |placed| :: placed[q].None?;
      EmptyAfterFirst(placed, p);
    }
  }

  lemma {:induction false} EmptyAfterFirst(s: Slots, p: nat)
    requires 1 <= p <= |s| && s[0].Some? && forall q | 1 <= q < |s| :: s[q].None?
    ensures Empty(s[..p]) == p - 1
    decreases p
  {
    hide Empty;
    EmptyNext(s, p - 1);
    if p == 1 { EmptyNone(s); } else { EmptyAfterFirst(s, p - 1); }
  }

  lemma {:induction false} MissingFrom(s: Slots, block: seq<Tx>, i: nat)
    requires |s| == |block| && i < |Missing(s, block)|
    ensures exists p | 0 <= p < |s| :: s[p].None? && Missing(s, block)[i] == block[p]
    decreases |s|
  {
    var n := |s| - 1;
    if i < |Missing(s[..n], block[..n])| {
      MissingFrom(s[..n], block[..n], i);
      var p :| 0 <= p < n && s[..n][p].None? && Missing(s[..n], block[..n])[i] == block[..n][p];
      assert s[p].None? && Missing(s, block)[i] == block[p];
    }
  }

  /** Nothing is requested that is known. */
  lemma OnlyUnknownMissing(m: Message, placed: Slots, s: Slots, block: seq<Tx>, short: nat -> nat, known: set<Tx>)
    requires Describes(m, placed, block, short) && Sound(m, placed, s, short, known)
    requires CollisionFree(block, known, short) && Complete(m, placed, s, short, known)
    ensures forall i | 0 <= i < |Missing(s, block)| :: Missing(s, block)[i] !in known
  {
    hide Empty, Missing;
    forall i: nat | i < |Missing(s, block)| ensures Missing(s, block)[i] !in known {
      MissingFrom(s, block, i);
      var p :| 0 <= p < |s| && s[p].None? && Missing(s, block)[i] == block[p];
      assert placed[p].None? && short(block[p].hash) == ShortAt(m, placed, p);
      assert Sole(short, known, short(block[p].hash));
    }
  }

  /** The whole exchange: whenever the message is taken up, requesting what is missing rebuilds the block, and
      nothing is requested that the receiver has. */
  method Exchange(block: seq<Tx>, pool: seq<Tx>, extra_txn: seq<Tx>, short: nat -> nat, crowded: nat -> bool)
    returns (status: ReadStatus, requested: seq<Tx>, rebuilt: seq<Tx>)
    requires block != [] && |block| <= MAX_INDEX && !block[0].isNull
    requires CollisionFree(block, Known(pool, extra_txn), short)
    ensures status == OK ==> rebuilt == block
    ensures status == OK && DistinctHashes(pool) ==> forall i | 0 <= i < |requested| :: requested[i] !in Known(pool, extra_txn)
    ensures status == OK <==>
      Distinct(MessageFor(block, short).shorttxids) && forall i | 0 <= i < |block| - 1 :: !crowded(i)
  {
    hide Sound, Placed, Empty, Distinct, Describes, CollisionFree, Agree, Filled, Missing, Complete, DistinctHashes,
      Answered, Searched, Indexed;
    var m := MessageFor(block, short);
    var d := new PartiallyDownloadedBlock();
    ghost var placed, ids, offered;
    assert PlaceOf(m.prefilledtxn, 0) == 0;
    status, placed, ids, offered := d.InitData(m, false, pool, extra_txn, short, crowded);
    requested, rebuilt := [], [];
    if status == OK {
      SoundLength(m, placed, d.txn_available, short, Known(pool, extra_txn));
      MessageDescribes(block, short, placed);
      SoundAgrees(m, placed, d.txn_available, block, short, Known(pool, extra_txn));
      requested := Missing(d.txn_available, block);
      Rebuilds(d.txn_available, block);
      if DistinctHashes(pool) {
        OnlyUnknownMissing(m, placed, d.txn_available, block, short, Known(pool, extra_txn));
      }
      status, rebuilt := d.FillBlock(requested, _ => Good);
    }
  }
}
