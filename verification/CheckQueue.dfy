/** The verification queue CCheckQueue (src/checkqueue.h): one master pushes batches of checks which N
    worker threads and the master itself work off. The protocol is modelled as steps from one lock
    acquisition to the next, taken by any thread in any order. */
module CheckQueue {

  type Check = nat

  /** Where a thread is. Thread 0 is the master, all others are workers. */
  datatype Pc =
    | Outside                                      // the master, not in Wait
    | Entering                                     // in Loop, about to take the lock for the first time
    | Waiting                                      // asleep on its condition variable
    | Woken                                        // notified, about to take the lock again
    | Locked                                       // holding the lock, within one step
    | Working(batch: seq<Check>, okAtStart: bool)  // running its checks without the lock

  /** The shared fields, the threads, and a record of the current session (since Wait last returned):
      the checks added, those whose batch has been reported, and those that really ran. */
  datatype State = State(
    queue: seq<Check>, nIdle: int, nTotal: int, fAllOk: bool, nTodo: int,
    threads: seq<Pc>,
    added: multiset<Check>, reported: multiset<Check>, ran: multiset<Check>)

  datatype Step =
    | Add(checks: seq<Check>, woken: set<nat>)  // the master adds checks; these workers are notified
    | EnterWait                                 // the master calls Wait
    | StartWorker                               // another thread calls Thread
    | Lock(t: nat)                              // thread t takes the lock and runs until it gives it up
    | WakeSpuriously(t: nat)

  /** The answer of Wait, if a step makes it return. */
  datatype Answer = None | Returned(ok: bool)

  // ---------------------------------------------------------------------------------------------
  // The code between lock acquisitions
  // ---------------------------------------------------------------------------------------------

  /** A batch is run in order, skipping checks after a failure: the final fOk and the checks that ran. */
  function RunBatch(ok: Check -> bool, batch: seq<Check>, fOk: bool): (bool, multiset<Check>) {
    if batch == [] then (fOk, multiset{})
    else if fOk then
      var (r, m) := RunBatch(ok, batch[1..], ok(batch[0]));
      (r, m + multiset{batch[0]})
    else RunBatch(ok, batch[1..], false)
  }

  /** How many checks to take: at least one, never more than there are, and otherwise as many as leave the same
      number to each of the other threads, up to the limit. */
  function BatchSize(nBatchSize: nat, queued: nat, threads: int): (n: nat)
    ensures queued > 0 ==> 1 <= n <= queued
    ensures threads >= 0 && n > 1 ==> n <= nBatchSize && n * (threads + 1) <= queued
    ensures threads >= 0 ==> n >= nBatchSize || (n + 1) * (threads + 1) > queued
  {
    var share := if threads < 0 then 0 else queued / (threads + 1);
    var n := if share < nBatchSize then share else nBatchSize;
    Shares(queued, threads, n);
    if n < 1 then 1 else n
  }

  lemma Shares(queued: nat, threads: int, n: nat)
    ensures threads >= 0 && n <= queued / (threads + 1) ==> n * (threads + 1) <= queued
    ensures threads >= 0 && n >= queued / (threads + 1) ==> (n + 1) * (threads + 1) > queued
  {
    if threads >= 0 {
      var d := threads + 1;
      var q := queued / d;
      assert queued == q * d + queued % d && 0 <= queued % d < d;
      if n <= q { Multiplied(n, q, d); }
      if n >= q { Multiplied(q + 1, n + 1, d); }
    }
  }

  lemma Multiplied(a: nat, b: nat, d: nat)
    requires a <= b
    ensures a * d <= b * d
  {
  }

  function Reversed<T>(s: seq<T>): seq<T> {
    if s == [] then [] else Reversed(s[1..]) + [s[0]]
  }

  /** From the head of the while loop: return, go to sleep, or take a batch from the back of the queue. */
  function LoopHead(nBatchSize: nat, s: State, t: nat): (State, Answer)
    requires t < |s.threads|
  {
    if s.queue == [] then
      if t == 0 && s.nTodo == 0 then
        (s.(nTotal := s.nTotal - 1, fAllOk := true, threads := s.threads[t := Outside],
            added := multiset{}, reported := multiset{}, ran := multiset{}),
         Returned(s.fAllOk))
      else
        (s.(nIdle := s.nIdle + 1, threads := s.threads[t := Waiting]), None)
    else
      var rest := |s.queue| - BatchSize(nBatchSize, |s.queue|, s.nTotal + s.nIdle);
      (s.(queue := s.queue[..rest], threads := s.threads[t := Working(Reversed(s.queue[rest..]), s.fAllOk)]), None)
  }

  /** The clean-up of the previous round: report the batch, and wake the master after the last one. */
  function Report(ok: Check -> bool, s: State, t: nat): (s': State)
    requires t < |s.threads| && s.threads[t].Working?
    ensures |s'.threads| == |s.threads|
  {
    var (fOk, m) := RunBatch(ok, s.threads[t].batch, s.threads[t].okAtStart);
    var todo := s.nTodo - |s.threads[t].batch|;
    var wake := todo == 0 && t != 0 && s.threads[0].Waiting?;
    s.(fAllOk := s.fAllOk && fOk, nTodo := todo,
       threads := (if wake then s.threads[0 := Woken] else s.threads)[t := Locked],
       reported := s.reported + multiset(s.threads[t].batch), ran := s.ran + m)
  }

  predicate CanLock(s: State, t: nat) {
    t < |s.threads| && (s.threads[t].Entering? || s.threads[t].Woken? || s.threads[t].Working?)
  }

  /** The state of thread t right after taking the lock and cleaning up its previous round. */
  function Entered(ok: Check -> bool, s: State, t: nat): (s': State)
    requires CanLock(s, t)
    ensures |s'.threads| == |s.threads|
  {
    match s.threads[t]
    case Entering => s.(nTotal := s.nTotal + 1, threads := s.threads[t := Locked])
    case Woken => s.(nIdle := s.nIdle - 1, threads := s.threads[t := Locked])
    case Working(_, _) => Report(ok, s, t)
  }

  /** A whole critical section of thread t. */
  function LockStep(ok: Check -> bool, nBatchSize: nat, s: State, t: nat): (State, Answer)
    requires CanLock(s, t)
  {
    LoopHead(nBatchSize, Entered(ok, s, t), t)
  }

  /** notify_one wakes one waiting worker if there is one, notify_all wakes them all. */
  predicate Notifies(s: State, n: nat, woken: set<nat>) {
    var waiting := set t: nat | t < |s.threads| && t != 0 && s.threads[t].Waiting?;
    && woken <= waiting
    && (n == 0 ==> woken == {})
    && (n == 1 ==> if waiting == {} then woken == {} else |woken| == 1)
    && (n > 1 ==> woken == waiting)
  }

  function Wake(threads: seq<Pc>, woken: set<nat>): seq<Pc> {
    seq(|threads|, t requires 0 <= t < |threads| => if t in woken then Woken else threads[t])
  }

  predicate Enabled(s: State, step: Step) {
    && |s.threads| > 0
    && match step
       case Add(checks, woken) => s.threads[0].Outside? && Notifies(s, |checks|, woken)
       case EnterWait => s.threads[0].Outside?
       case StartWorker => true
       case Lock(t) => CanLock(s, t)
       case WakeSpuriously(t) => t < |s.threads| && s.threads[t].Waiting?
  }

  function Apply(ok: Check -> bool, nBatchSize: nat, s: State, step: Step): (State, Answer)
    requires Enabled(s, step)
  {
    match step
    case Add(checks, woken) =>
      (s.(queue := s.queue + checks, nTodo := s.nTodo + |checks|, threads := Wake(s.threads, woken),
          added := s.added + multiset(checks)), None)
    case EnterWait => (s.(threads := s.threads[0 := Entering]), None)
    case StartWorker => (s.(threads := s.threads + [Entering]), None)
    case Lock(t) => LockStep(ok, nBatchSize, s, t)
    case WakeSpuriously(t) => (s.(threads := s.threads[t := Woken]), None)
  }

  const Initial := State([], 0, 0, true, 0, [Outside], multiset{}, multiset{}, multiset{})

  // ---------------------------------------------------------------------------------------------
  // Totals over threads
  // ---------------------------------------------------------------------------------------------

  function InFlight(p: Pc): nat { if p.Working? then |p.batch| else 0 }
  function IsIdle(p: Pc): nat { if p.Waiting? || p.Woken? then 1 else 0 }
  function InLoop(p: Pc): nat { if p.Outside? || p.Entering? then 0 else 1 }
  function IsActive(p: Pc): nat { if p.Woken? || p.Entering? then 1 else 0 }

  function Total(f: Pc -> nat, threads: seq<Pc>): nat {
    if threads == [] then 0 else f(threads[0]) + Total(f, threads[1..])
  }

  lemma {:induction false} TotalUpdate(f: Pc -> nat, threads: seq<Pc>, t: nat, p: Pc)
    requires t < |threads|
    ensures Total(f, threads[t := p]) == Total(f, threads) - f(threads[t]) + f(p)
  {
    if t > 0 {
      TotalUpdate(f, threads[1..], t - 1, p);
      assert threads[t := p][1..] == threads[1..][t - 1 := p];
    }
  }

  lemma {:induction false} TotalAppend(f: Pc -> nat, threads: seq<Pc>, p: Pc)
    ensures Total(f, threads + [p]) == Total(f, threads) + f(p)
  {
    if threads != [] {
      TotalAppend(f, threads[1..], p);
      assert (threads + [p])[1..] == threads[1..] + [p];
    }
  }

  lemma {:induction false} TotalSame(f: Pc -> nat, threads: seq<Pc>, threads': seq<Pc>)
    requires |threads| == |threads'| && forall t | 0 <= t < |threads| :: f(threads[t]) == f(threads'[t])
    ensures Total(f, threads) == Total(f, threads')
  {
    if threads != [] { TotalSame(f, threads[1..], threads'[1..]); }
  }

  lemma {:induction false} TotalPositive(f: Pc -> nat, threads: seq<Pc>) returns (t: nat)
    requires Total(f, threads) > 0
    ensures t < |threads| && f(threads[t]) > 0
  {
    if f(threads[0]) > 0 {
      t := 0;
    } else {
      var i := TotalPositive(f, threads[1..]);
      t := i + 1;
    }
  }

  lemma {:induction false} TotalAtLeast(f: Pc -> nat, threads: seq<Pc>, t: nat)
    requires t < |threads|
    ensures Total(f, threads) >= f(threads[t])
  {
    if t > 0 { TotalAtLeast(f, threads[1..], t - 1); }
  }

  /** The checks in the batches of all threads. */
  function Batch(p: Pc): multiset<Check> { if p.Working? then multiset(p.batch) else multiset{} }

  function Batches(threads: seq<Pc>): multiset<Check> {
    if threads == [] then multiset{} else Batch(threads[0]) + Batches(threads[1..])
  }

  lemma MultisetShift<T>(a: multiset<T>, b: multiset<T>, c: multiset<T>, d: multiset<T>, e: multiset<T>)
    requires a + b == c + d
    ensures (e + a) + b == (e + c) + d
  {
    assert (e + a) + b == e + (a + b) && (e + c) + d == e + (c + d);
  }

  lemma {:induction false} BatchesUpdate(threads: seq<Pc>, t: nat, p: Pc)
    requires t < |threads|
    ensures Batches(threads[t := p]) + Batch(threads[t]) == Batches(threads) + Batch(p)
  {
    var threads', tail := threads[t := p], threads[1..];
    assert Batches(threads') == Batch(threads'[0]) + Batches(threads'[1..]);
    assert Batches(threads) == Batch(threads[0]) + Batches(tail);
    hide Batches, Batch;
    if t > 0 {
      BatchesUpdate(tail, t - 1, p);
      assert threads'[1..] == tail[t - 1 := p];
      MultisetShift(Batches(threads'[1..]), Batch(threads[t]), Batches(tail), Batch(p), Batch(threads[0]));
    } else {
      assert threads'[1..] == tail;
      MultisetSwap(Batch(p), Batches(tail), Batch(threads[0]));
    }
  }

  lemma MultisetSwap<T>(a: multiset<T>, b: multiset<T>, c: multiset<T>)
    ensures (a + b) + c == (c + b) + a
  {
  }

  lemma {:induction false} BatchesAppend(threads: seq<Pc>)
    ensures Batches(threads + [Entering]) == Batches(threads)
  {
    if threads != [] {
      BatchesAppend(threads[1..]);
      assert (threads + [Entering])[1..] == threads[1..] + [Entering];
    }
  }

  lemma {:induction false} BatchesSame(threads: seq<Pc>, threads': seq<Pc>)
    requires |threads| == |threads'| && forall t | 0 <= t < |threads| :: Batch(threads[t]) == Batch(threads'[t])
    ensures Batches(threads) == Batches(threads')
  {
    if threads != [] { BatchesSame(threads[1..], threads'[1..]); }
  }

  lemma {:induction false} BatchesSize(threads: seq<Pc>)
    ensures |Batches(threads)| == Total(InFlight, threads)
  {
    if threads != [] { BatchesSize(threads[1..]); }
  }

  lemma {:induction false} ReversedIsPermutation<T>(s: seq<T>)
    ensures |Reversed(s)| == |s| && multiset(Reversed(s)) == multiset(s)
  {
    if s != [] {
      ReversedIsPermutation(s[1..]);
      assert s == [s[0]] + s[1..];
    }
  }

  /** A batch that ends well was run completely, every check with success; and only such a batch does. */
  lemma {:induction false} RunBatchMeaning(ok: Check -> bool, batch: seq<Check>, fOk: bool)
    ensures RunBatch(ok, batch, fOk).0 <==> fOk && forall c | c in batch :: ok(c)
    ensures RunBatch(ok, batch, fOk).0 ==> RunBatch(ok, batch, fOk).1 == multiset(batch)
    ensures RunBatch(ok, batch, fOk).1 <= multiset(batch)
  {
    if batch != [] {
      RunBatchMeaning(ok, batch[1..], fOk && ok(batch[0]));
      assert batch == [batch[0]] + batch[1..];
    }
  }

  // ---------------------------------------------------------------------------------------------
  // The invariant
  // ---------------------------------------------------------------------------------------------

  ghost predicate ThreadsOk(s: State) {
    && |s.threads| > 0
    && (forall t | 0 < t < |s.threads| :: !s.threads[t].Outside?)
    && (forall t | 0 <= t < |s.threads| && s.threads[t].Working? ::
          s.threads[t].batch != [] && (!s.threads[t].okAtStart ==> !s.fAllOk))
  }

  /** The counters say what their comments in the source say. */
  ghost predicate CountersOk(s: State) {
    && s.nIdle == Total(IsIdle, s.threads)
    && s.nTotal == Total(InLoop, s.threads)
    && s.nTodo == |s.queue| + Total(InFlight, s.threads)
  }

  /** No check is lost or duplicated, and fAllOk is the truth about the reported ones. */
  ghost predicate SessionOk(ok: Check -> bool, s: State) {
    && s.added == multiset(s.queue) + Batches(s.threads) + s.reported
    && (s.fAllOk <==> forall c | c in s.reported :: ok(c))
    && (s.fAllOk ==> s.ran == s.reported)
    && s.ran <= s.reported
  }

  /** The master only sleeps while there is something left to do that others are doing. */
  ghost predicate MasterOk(s: State) {
    |s.threads| > 0 && s.threads[0].Waiting? ==> s.queue == [] && s.nTodo > 0
  }

  ghost predicate Inv(ok: Check -> bool, s: State) {
    ThreadsOk(s) && CountersOk(s) && SessionOk(ok, s) && MasterOk(s)
  }

  ghost predicate NoneLocked(s: State) { forall t | 0 <= t < |s.threads| :: !s.threads[t].Locked? }

  /** All totals after one thread moves from one place to another. */
  lemma Totals(threads: seq<Pc>, t: nat, p: Pc)
    requires t < |threads|
    ensures Total(IsIdle, threads[t := p]) == Total(IsIdle, threads) - IsIdle(threads[t]) + IsIdle(p)
    ensures Total(InLoop, threads[t := p]) == Total(InLoop, threads) - InLoop(threads[t]) + InLoop(p)
    ensures Total(InFlight, threads[t := p]) == Total(InFlight, threads) - InFlight(threads[t]) + InFlight(p)
    ensures Total(IsActive, threads[t := p]) == Total(IsActive, threads) - IsActive(threads[t]) + IsActive(p)
    ensures !threads[t].Working? ==> Batches(threads[t := p]) == Batches(threads) + Batch(p)
    ensures !threads[t].Working? && !p.Working? ==> Batches(threads[t := p]) == Batches(threads)
    ensures threads[t].Working? && !p.Working? ==> Batches(threads[t := p]) + multiset(threads[t].batch) == Batches(threads)
  {
    TotalUpdate(IsIdle, threads, t, p);
    TotalUpdate(InLoop, threads, t, p);
    TotalUpdate(InFlight, threads, t, p);
    TotalUpdate(IsActive, threads, t, p);
    BatchesUpdate(threads, t, p);
  }

  /** Wait returns: nothing is left, so the answer is about every check added. */
  lemma ReturnInv(ok: Check -> bool, nBatchSize: nat, s: State)
    requires Inv(ok, s) && s.threads[0].Locked? && s.queue == [] && s.nTodo == 0
    ensures Inv(ok, LoopHead(nBatchSize, s, 0).0)
    ensures s.fAllOk <==> forall c | c in s.added :: ok(c)
    ensures s.fAllOk ==> s.ran == s.added
  {
    hide Total, Batches, BatchSize, Reversed;
    Totals(s.threads, 0, Outside);
    BatchesSize(s.threads);
    assert Batches(s.threads) == multiset{};
    assert s.added == s.reported;
    forall t | 0 <= t < |s.threads| ensures !s.threads[t].Working? { TotalAtLeast(InFlight, s.threads, t); }
  }

  lemma SleepInv(ok: Check -> bool, nBatchSize: nat, s: State, t: nat)
    requires Inv(ok, s) && t < |s.threads| && s.threads[t].Locked? && s.queue == [] && (t != 0 || s.nTodo != 0)
    ensures Inv(ok, LoopHead(nBatchSize, s, t).0)
  {
    hide Total, Batches, BatchSize, Reversed;
    Totals(s.threads, t, Waiting);
  }

  lemma TakeInv(ok: Check -> bool, nBatchSize: nat, s: State, t: nat)
    requires Inv(ok, s) && t < |s.threads| && s.threads[t].Locked? && s.queue != []
    ensures Inv(ok, LoopHead(nBatchSize, s, t).0)
  {
    hide Total, Batches, BatchSize, Reversed;
    var s' := LoopHead(nBatchSize, s, t).0;
    var rest := |s'.queue|;
    Totals(s.threads, t, s'.threads[t]);
    ReversedIsPermutation(s.queue[rest..]);
    assert s.queue == s.queue[..rest] + s.queue[rest..];
  }

  lemma LoopHeadInv(ok: Check -> bool, nBatchSize: nat, s: State, t: nat)
    requires Inv(ok, s) && t < |s.threads| && s.threads[t].Locked?
    ensures Inv(ok, LoopHead(nBatchSize, s, t).0)
    ensures LoopHead(nBatchSize, s, t).1.Returned? ==>
      && t == 0 && LoopHead(nBatchSize, s, t).1.ok == s.fAllOk
      && (s.fAllOk <==> forall c | c in s.added :: ok(c)) && (s.fAllOk ==> s.ran == s.added)
  {
    hide Inv;
    if s.queue != [] {
      TakeInv(ok, nBatchSize, s, t);
    } else if t == 0 && s.nTodo == 0 {
      ReturnInv(ok, nBatchSize, s);
    } else {
      SleepInv(ok, nBatchSize, s, t);
    }
  }

  lemma ReportThreads(ok: Check -> bool, s: State, t: nat)
    requires Inv(ok, s) && t < |s.threads| && s.threads[t].Working?
    ensures var s' := Report(ok, s, t); var b := s.threads[t].batch;
      && Total(IsIdle, s'.threads) == Total(IsIdle, s.threads) && Total(InLoop, s'.threads) == Total(InLoop, s.threads)
      && Total(InFlight, s'.threads) == Total(InFlight, s.threads) - |b|
      && Batches(s'.threads) + multiset(b) == Batches(s.threads)
  {
    hide Total, Batches, RunBatch, Inv;
    var s', p := Report(ok, s, t), s.threads[t];
    var woken := if s.nTodo - |p.batch| == 0 && t != 0 && s.threads[0].Waiting? then s.threads[0 := Woken] else s.threads;
    Totals(s.threads, 0, Woken);
    Totals(woken, t, Locked);
    assert s'.threads == woken[t := Locked];
  }

  lemma ReportInv(ok: Check -> bool, s: State, t: nat)
    requires Inv(ok, s) && t < |s.threads| && s.threads[t].Working?
    ensures Inv(ok, Report(ok, s, t)) && Report(ok, s, t).threads[t].Locked?
    ensures Report(ok, s, t).added == s.added && Report(ok, s, t).nTodo < s.nTodo
  {
    hide Total, Batches, RunBatch;
    var s', p := Report(ok, s, t), s.threads[t];
    RunBatchMeaning(ok, p.batch, p.okAtStart);
    ReportThreads(ok, s, t);
    assert SessionOk(ok, s') by {
      assert s.added == multiset(s.queue) + (Batches(s'.threads) + multiset(p.batch)) + s.reported;
      assert s'.fAllOk <==> s.fAllOk && forall c | c in p.batch :: ok(c);
    }
    TotalAtLeast(InFlight, s.threads, t);
  }

  lemma TakeLockInv(ok: Check -> bool, s: State, t: nat)
    requires Inv(ok, s) && CanLock(s, t) && !s.threads[t].Working?
    ensures Inv(ok, Entered(ok, s, t))
  {
    hide Total, Batches, Report;
    Totals(s.threads, t, Locked);
  }

  lemma EnteredInv(ok: Check -> bool, s: State, t: nat)
    requires Inv(ok, s) && CanLock(s, t)
    ensures Inv(ok, Entered(ok, s, t)) && Entered(ok, s, t).threads[t].Locked? && Entered(ok, s, t).added == s.added
  {
    hide Inv, Report;
    if s.threads[t].Working? { ReportInv(ok, s, t); } else { TakeLockInv(ok, s, t); }
  }

  /** The answer of Wait: true exactly if every check added since the last Wait returned true, and then
      all of them were really run. */
  lemma LockInv(ok: Check -> bool, nBatchSize: nat, s: State, t: nat)
    requires Inv(ok, s) && CanLock(s, t)
    ensures Inv(ok, LockStep(ok, nBatchSize, s, t).0)
    ensures var (s', answer) := LockStep(ok, nBatchSize, s, t);
      if answer.Returned? then
        && t == 0 && s'.threads[0].Outside?
        && (answer.ok <==> forall c | c in s.added :: ok(c))
        && (answer.ok ==> Entered(ok, s, t).ran == s.added)
      else s'.added == s.added
  {
    hide Inv, Entered;
    EnteredInv(ok, s, t);
    LoopHeadInv(ok, nBatchSize, Entered(ok, s, t), t);
  }

  lemma WakeTotals(threads: seq<Pc>, woken: set<nat>)
    requires forall t | t in woken :: t < |threads| && threads[t].Waiting?
    ensures Total(IsIdle, Wake(threads, woken)) == Total(IsIdle, threads)
    ensures Total(InLoop, Wake(threads, woken)) == Total(InLoop, threads)
    ensures Total(InFlight, Wake(threads, woken)) == Total(InFlight, threads)
    ensures Batches(Wake(threads, woken)) == Batches(threads)
  {
    var threads' := Wake(threads, woken);
    TotalSame(IsIdle, threads, threads');
    TotalSame(InLoop, threads, threads');
    TotalSame(InFlight, threads, threads');
    BatchesSame(threads, threads');
  }

  lemma WakeInv(ok: Check -> bool, s: State, woken: set<nat>)
    requires Inv(ok, s) && forall t | t in woken :: 0 < t < |s.threads| && s.threads[t].Waiting?
    ensures Inv(ok, s.(threads := Wake(s.threads, woken)))
  {
    hide Total, Batches;
    WakeTotals(s.threads, woken);
  }

  lemma AddInv(ok: Check -> bool, s: State, checks: seq<Check>)
    requires Inv(ok, s) && s.threads[0].Outside?
    ensures Inv(ok, s.(queue := s.queue + checks, nTodo := s.nTodo + |checks|, added := s.added + multiset(checks)))
  {
    hide Total, Batches;
  }

  /** Every step of every thread keeps the invariant. */
  lemma StepInv(ok: Check -> bool, nBatchSize: nat, s: State, step: Step)
    requires Inv(ok, s) && NoneLocked(s) && Enabled(s, step)
    ensures Inv(ok, Apply(ok, nBatchSize, s, step).0) && NoneLocked(Apply(ok, nBatchSize, s, step).0)
  {
    hide Inv, LockStep, Wake, NoneLocked;
    StepUnlocks(ok, nBatchSize, s, step);
    match step
    case Add(checks, woken) =>
      WakeInv(ok, s, woken);
      WakeKeepsMaster(s.threads, woken);
      AddInv(ok, s.(threads := Wake(s.threads, woken)), checks);
    case EnterWait => MoveInv(ok, s, 0, Entering);
    case WakeSpuriously(t) => MoveInv(ok, s, t, Woken);
    case StartWorker => StartInv(ok, s);
    case Lock(t) => LockInv(ok, nBatchSize, s, t);
  }

  lemma WakeKeepsMaster(threads: seq<Pc>, woken: set<nat>)
    requires |threads| > 0 && 0 !in woken
    ensures Wake(threads, woken)[0] == threads[0]
  {
  }

  lemma StepUnlocks(ok: Check -> bool, nBatchSize: nat, s: State, step: Step)
    requires NoneLocked(s) && Enabled(s, step)
    ensures NoneLocked(Apply(ok, nBatchSize, s, step).0)
  {
    hide LockStep, Notifies;
    if step.Lock? { LockUnlocks(ok, nBatchSize, s, step.t); }
  }

  lemma LockUnlocks(ok: Check -> bool, nBatchSize: nat, s: State, t: nat)
    requires NoneLocked(s) && CanLock(s, t)
    ensures NoneLocked(LockStep(ok, nBatchSize, s, t).0)
  {
    hide RunBatch, Reversed, BatchSize;
    var mid := Entered(ok, s, t);
    assert forall u | 0 <= u < |mid.threads| && u != t :: !mid.threads[u].Locked?;
    var (s', _) := LoopHead(nBatchSize, mid, t);
    assert s'.threads == mid.threads[t := s'.threads[t]];
  }

  lemma MoveInv(ok: Check -> bool, s: State, t: nat, p: Pc)
    requires Inv(ok, s) && t < |s.threads|
    requires (s.threads[t].Waiting? && p.Woken?) || (s.threads[t].Outside? && p.Entering?)
    ensures Inv(ok, s.(threads := s.threads[t := p]))
  {
    hide Total, Batches;
    Totals(s.threads, t, p);
  }

  lemma StartInv(ok: Check -> bool, s: State)
    requires Inv(ok, s)
    ensures Inv(ok, s.(threads := s.threads + [Entering]))
  {
    hide Total, Batches;
    TotalAppend(IsIdle, s.threads, Entering);
    TotalAppend(InLoop, s.threads, Entering);
    TotalAppend(InFlight, s.threads, Entering);
    BatchesAppend(s.threads);
  }

  // ---------------------------------------------------------------------------------------------
  // Runs
  // ---------------------------------------------------------------------------------------------

  /** A run: every state follows from the one before by some enabled step, in any interleaving. */
  ghost predicate IsRun(ok: Check -> bool, nBatchSize: nat, states: seq<State>, steps: seq<Step>) {
    && |states| == |steps| + 1 && states[0] == Initial
    && forall i | 0 <= i < |steps| :: Enabled(states[i], steps[i]) && states[i + 1] == Apply(ok, nBatchSize, states[i], steps[i]).0
  }

  /** In every state of every run, nTodo counts the queued and the in-flight checks, no check is lost,
      and the master does not sleep unless some worker is still busy. */
  lemma {:induction false} RunInv(ok: Check -> bool, nBatchSize: nat, states: seq<State>, steps: seq<Step>, i: nat)
    requires IsRun(ok, nBatchSize, states, steps) && i < |states|
    ensures Inv(ok, states[i]) && NoneLocked(states[i])
    ensures states[i].nTodo == |states[i].queue| + Total(InFlight, states[i].threads)
    ensures states[i].threads[0].Waiting? ==> exists t :: 0 < t < |states[i].threads| && states[i].threads[t].Working?
  {
    if i == 0 {
      assert Total(IsIdle, [Outside]) == Total(InLoop, [Outside]) == Total(InFlight, [Outside]) == 0;
      assert Batches([Outside]) == multiset{};
    } else {
      RunInv(ok, nBatchSize, states, steps, i - 1);
      StepInv(ok, nBatchSize, states[i - 1], steps[i - 1]);
      if states[i].threads[0].Waiting? { var _ := NoLostWakeUp(ok, states[i]); }
    }
  }

  /** While the master sleeps, a worker has a batch whose report will wake it. */
  lemma NoLostWakeUp(ok: Check -> bool, s: State) returns (t: nat)
    requires Inv(ok, s) && s.threads[0].Waiting?
    ensures 0 < t < |s.threads| && s.threads[t].Working?
  {
    hide Batches;
    t := TotalPositive(InFlight, s.threads);
  }

  /** In every run, whenever Wait returns, its answer is the conjunction of all checks added for it. */
  lemma AnswersAreRight(ok: Check -> bool, nBatchSize: nat, states: seq<State>, steps: seq<Step>, i: nat)
    requires IsRun(ok, nBatchSize, states, steps) && i < |steps|
    requires Apply(ok, nBatchSize, states[i], steps[i]).1.Returned?
    ensures Apply(ok, nBatchSize, states[i], steps[i]).1.ok <==> forall c | c in states[i].added :: ok(c)
  {
    RunInv(ok, nBatchSize, states, steps, i);
    hide Inv, RunBatch;
    LockInv(ok, nBatchSize, states[i], steps[i].t);
  }

  // ---------------------------------------------------------------------------------------------
  // Wait always gets an answer
  // ---------------------------------------------------------------------------------------------

  /** The master is in Wait. */
  ghost predicate InWait(ok: Check -> bool, s: State) {
    Inv(ok, s) && NoneLocked(s) && !s.threads[0].Outside?
  }

  lemma SomeoneCanLock(ok: Check -> bool, s: State) returns (t: nat)
    requires InWait(ok, s)
    ensures CanLock(s, t)
  {
    if s.threads[0].Waiting? { t := NoLostWakeUp(ok, s); } else { t := 0; }
  }

  /** What happens to the work between the lock and its release. */
  lemma LoopHeadEffect(nBatchSize: nat, s: State, t: nat)
    requires t < |s.threads| && s.threads[t].Locked? && LoopHead(nBatchSize, s, t).1.None?
    ensures var s' := LoopHead(nBatchSize, s, t).0;
      && s'.nTodo == s.nTodo && |s'.queue| <= |s.queue| && s'.threads[0].Outside? == s.threads[0].Outside?
      && Total(IsActive, s'.threads) == Total(IsActive, s.threads)
      && (|s'.queue| == |s.queue| ==> s.queue == [])
  {
    hide Total, Batches, Reversed, BatchSize;
    Totals(s.threads, t, LoopHead(nBatchSize, s, t).0.threads[t]);
  }

  /** Every critical section makes progress: checks get done, or taken, or a thread goes to sleep. */
  lemma LockDecreases(ok: Check -> bool, nBatchSize: nat, s: State, t: nat)
    requires Inv(ok, s) && CanLock(s, t) && LockStep(ok, nBatchSize, s, t).1.None?
    ensures var s' := LockStep(ok, nBatchSize, s, t).0;
      && s'.nTodo <= s.nTodo && s'.threads[0].Outside? == s.threads[0].Outside?
      && (s'.nTodo == s.nTodo ==>
            && |s'.queue| <= |s.queue|
            && (|s'.queue| == |s.queue| ==> Total(IsActive, s'.threads) < Total(IsActive, s.threads)))
  {
    hide Inv, LoopHead, Report, Total;
    EnteredInv(ok, s, t);
    EnteredEffect(ok, s, t);
    LoopHeadEffect(nBatchSize, Entered(ok, s, t), t);
    if s.threads[t].Working? { ReportInv(ok, s, t); } else { Totals(s.threads, t, Locked); }
  }

  lemma EnteredEffect(ok: Check -> bool, s: State, t: nat)
    requires CanLock(s, t)
    ensures Entered(ok, s, t).threads[0].Outside? == s.threads[0].Outside?
  {
    hide RunBatch;
  }

  lemma TodoNonNegative(ok: Check -> bool, s: State)
    requires Inv(ok, s)
    ensures s.nTodo >= 0
  {
  }

  /** A scheduler that picks some thread able to run. */
  ghost predicate Schedules(pick: State -> nat) {
    forall s: State, t: nat {:trigger CanLock(s, t), pick(s)} :: CanLock(s, t) ==> CanLock(s, pick(s))
  }

  /** One step of a Wait under a scheduler: it either ends with the right answer, or leaves less to do. */
  lemma WaitStep(ok: Check -> bool, nBatchSize: nat, pick: State -> nat, s: State)
    requires Schedules(pick) && InWait(ok, s)
    ensures CanLock(s, pick(s)) && s.nTodo >= 0
    ensures var (s', answer) := LockStep(ok, nBatchSize, s, pick(s));
      if answer.Returned? then answer.ok <==> forall c | c in s.added :: ok(c)
      else
        && InWait(ok, s') && s'.added == s.added
        && (s.nTodo, |s.queue|, Total(IsActive, s.threads) decreases to s'.nTodo, |s'.queue|, Total(IsActive, s'.threads))
  {
    var t := SomeoneCanLock(ok, s);
    hide Inv, LockStep, NoneLocked, Total, CanLock;
    assert CanLock(s, t) ==> CanLock(s, pick(s));
    LockInv(ok, nBatchSize, s, pick(s));
    StepInv(ok, nBatchSize, s, Lock(pick(s)));
    TodoNonNegative(ok, s);
    TodoNonNegative(ok, LockStep(ok, nBatchSize, s, pick(s)).0);
    if LockStep(ok, nBatchSize, s, pick(s)).1.None? { LockDecreases(ok, nBatchSize, s, pick(s)); }
  }

  /** From any reachable state of a Wait, whatever the scheduler picks, Wait returns after finitely many
      steps, with the right answer. */
  ghost function WaitOutcome(ok: Check -> bool, nBatchSize: nat, pick: State -> nat, s: State): (r: bool)
    requires Schedules(pick) && InWait(ok, s)
    ensures r <==> forall c | c in s.added :: ok(c)
    decreases s.nTodo, |s.queue|, Total(IsActive, s.threads)
  {
    WaitStep(ok, nBatchSize, pick, s);
    var (s', answer) := LockStep(ok, nBatchSize, s, pick(s));
    if answer.Returned? then answer.ok else WaitOutcome(ok, nBatchSize, pick, s')
  }
}
