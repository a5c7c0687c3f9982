/**
 The check queue of src/checkqueue.h: one master and any number of workers share a stack of checks
 under a mutex. Every section between taking and releasing the mutex, and every check executed
 outside it, is one step; the interleavings are the sequences of steps.
 */
module CheckQueue {
  import Bits
  import opened Options

  /** A check and the answer it will give. */
  datatype Check = Check(id: nat, ok: bool)

  /** Where a thread is: not in Loop, before the lock at the top of the loop with a batch of `nNow`
      checks behind it, in cond.wait, or executing the rest of its batch. */
  datatype Thread =
    | Outside
    | AtTop(nNow: nat, fOk: bool)
    | Waiting(notified: bool)
    | Working(todo: seq<Check>, nNow: nat, fOk: bool)

  const MASTER := 0

  /** The shared fields, the threads (the master first), and what happened since Wait last returned:
      the checks added, and those executed or skipped. `last` is what Wait returned last. */
  datatype State = State(
    queue: seq<Check>, nIdle: int, nTotal: int, fAllOk: bool, nTodo: int, fQuit: bool, nBatchSize: nat,
    threads: seq<Thread>, added: seq<Check>, dealt: multiset<Check>, last: Option<bool>)

  predicate AllOk(checks: multiset<Check>) {
    forall c | c in checks :: c.ok
  }

  function Init(nBatchSize: nat, workers: nat): State {
    State([], 0, 0, true, 0, false, nBatchSize, seq(workers + 1, _ => Outside), [], multiset{}, None)
  }

  // The steps

  datatype Step =
    | Add(checks: seq<Check>, woken: nat)
    | Enter(t: nat)
    | Lock(t: nat)
    | Wake(t: nat)
    | Work(t: nat)

  predicate Enabled(s: State, step: Step) {
    match step
    case Add(_, _) => s.threads != [] && s.threads[MASTER].Outside?
    case Enter(t) => t < |s.threads| && s.threads[t].Outside?
    case Lock(t) => t < |s.threads| && s.threads[t].AtTop? && s.nTotal >= 0 && s.nIdle >= 0
    case Wake(t) => t < |s.threads| && s.threads[t].Waiting? && s.nTotal >= 0 && s.nIdle >= 1
    case Work(t) => t < |s.threads| && s.threads[t].Working?
  }

  function Notify(thread: Thread): Thread {
    if thread.Waiting? then Waiting(true) else thread
  }

  /** condWorker.notify_one wakes one waiting worker, of the scheduler's choice; notify_all all of them. */
  function NotifyWorkers(threads: seq<Thread>, count: nat, woken: nat): seq<Thread> {
    seq(|threads|, t requires 0 <= t < |threads| =>
      if t != MASTER && (count > 1 || (count == 1 && t == woken)) then Notify(threads[t]) else threads[t])
  }

  /** How many checks a thread takes at once: at least one, and at most what there is. */
  function BatchSize(s: State): (n: nat)
    requires s.nTotal >= 0 && s.nIdle >= 0
    ensures s.queue != [] ==> 1 <= n <= |s.queue|
  {
    var share := |s.queue| / (s.nTotal + s.nIdle + 1);
    assert share <= |s.queue| by { Share(|s.queue|, s.nTotal + s.nIdle + 1); }
    var capped := if share < s.nBatchSize then share else s.nBatchSize;
    if capped < 1 then 1 else capped
  }

  lemma Share(n: nat, d: nat)
    requires d > 0
    ensures n / d <= n
  {
    var q := n / d;
    assert n == d * q + n % d;
    if q > 0 { Bits.Above(d, q); }
  }

  /** The checks at the back of the queue, last one first. */
  function Taken(queue: seq<Check>, n: nat): seq<Check>
    requires n <= |queue|
  {
    seq(n, i requires 0 <= i < n => queue[|queue| - 1 - i])
  }

  /** The loop that moves checks from the back of the queue into a batch. */
  method TakeBatch(queue: seq<Check>, n: nat) returns (batch: seq<Check>, rest: seq<Check>)
    requires n <= |queue|
    ensures batch == Taken(queue, n) && rest == queue[..|queue| - n]
  {
    batch, rest := [], queue;
    for i := 0 to n
      invariant rest == queue[..|queue| - i] && batch == Taken(queue, i)
    {
      batch := batch + [rest[|rest| - 1]];
      rest := rest[..|rest| - 1];
    }
  }

  /** From the `while (queue.empty())` test on: return, wait, or take a batch. */
  function Proceed(s: State, t: nat): State
    requires t < |s.threads| && s.nTotal >= 0 && s.nIdle >= 0
  {
    if s.queue == [] then
      if (t == MASTER || s.fQuit) && s.nTodo == 0 then
        var left := s.(nTotal := s.nTotal - 1, threads := s.threads[t := Outside]);
        if t == MASTER then left.(fAllOk := true, last := Some(s.fAllOk), added := [], dealt := multiset{}) else left
      else s.(nIdle := s.nIdle + 1, threads := s.threads[t := Waiting(false)])
    else
      var n := BatchSize(s);
      s.(queue := s.queue[..|s.queue| - n], threads := s.threads[t := Working(Taken(s.queue, n), n, s.fAllOk)])
  }

  /** The clean-up of the previous round; the last check done by a worker wakes the master. */
  function CleanUp(s: State, t: nat): State
    requires t < |s.threads| && s.threads[t].AtTop?
  {
    var nNow := s.threads[t].nNow;
    if nNow == 0 then s.(nTotal := s.nTotal + 1)
    else
      var todo := s.nTodo - nNow;
      s.(fAllOk := s.fAllOk && s.threads[t].fOk, nTodo := todo,
         threads := if todo == 0 && t != MASTER then s.threads[MASTER := Notify(s.threads[MASTER])] else s.threads)
  }

  function AddChecks(s: State, checks: seq<Check>, woken: nat): State {
    s.(queue := s.queue + checks, nTodo := s.nTodo + |checks|, added := s.added + checks,
       threads := NotifyWorkers(s.threads, |checks|, woken))
  }

  /** Clean-up accounts for the batch of `t`, which goes on as if it had none. */
  function Locked(s: State, t: nat): State
    requires t < |s.threads| && s.threads[t].AtTop?
  {
    var s1 := CleanUp(s, t);
    s1.(threads := s1.threads[t := AtTop(0, true)])
  }

  function Woken(s: State, t: nat): State
    requires t < |s.threads|
  {
    s.(nIdle := s.nIdle - 1, threads := s.threads[t := AtTop(0, true)])
  }

  /** One check of the batch is executed, or skipped after a failure; or the batch is finished. */
  function Worked(s: State, t: nat): State
    requires t < |s.threads| && s.threads[t].Working?
  {
    var w := s.threads[t];
    if w.todo == [] then s.(threads := s.threads[t := AtTop(w.nNow, w.fOk)])
    else
      s.(threads := s.threads[t := Working(w.todo[1..], w.nNow, w.fOk && w.todo[0].ok)],
         dealt := s.dealt + multiset{w.todo[0]})
  }

  function Apply(s: State, step: Step): State
    requires Enabled(s, step)
  {
    match step
    case Add(checks, woken) => AddChecks(s, checks, woken)
    case Enter(t) => s.(threads := s.threads[t := AtTop(0, true)])
    case Lock(t) => Proceed(Locked(s, t), t)
    case Wake(t) => Proceed(Woken(s, t), t)
    case Work(t) => Worked(s, t)
  }

  // Totals over the threads

  function Total(f: Thread -> int, threads: seq<Thread>): int {
    if threads == [] then 0 else f(threads[0]) + Total(f, threads[1..])
  }

  lemma {:induction false} TotalUpdate(f: Thread -> int, threads: seq<Thread>, t: nat, x: Thread)
    requires t < |threads|
    ensures Total(f, threads[t := x]) == Total(f, threads) - f(threads[t]) + f(x)
  {
    if t > 0 {
      assert threads[t := x][1..] == threads[1..][t - 1 := x];
      TotalUpdate(f, threads[1..], t - 1, x);
    } else {
      assert threads[t := x][1..] == threads[1..];
    }
  }

  lemma {:induction false} TotalSame(f: Thread -> int, a: seq<Thread>, b: seq<Thread>)
    requires |a| == |b| && forall i | 0 <= i < |a| :: f(a[i]) == f(b[i])
    ensures Total(f, a) == Total(f, b)
  {
    if a != [] { TotalSame(f, a[1..], b[1..]); }
  }

  lemma {:induction false} TotalPositive(f: Thread -> int, threads: seq<Thread>)
    requires forall x :: f(x) >= 0
    ensures Total(f, threads) >= 0
    ensures forall i | 0 <= i < |threads| :: f(threads[i]) <= Total(f, threads)
  {
    if threads != [] { TotalPositive(f, threads[1..]); }
  }

  /** The checks in a thread's batch it has not come to yet. */
  function Todo(x: Thread): multiset<Check> {
    if x.Working? then multiset(x.todo) else multiset{}
  }

  function TodoAll(threads: seq<Thread>): multiset<Check> {
    if threads == [] then multiset{} else Todo(threads[0]) + TodoAll(threads[1..])
  }

  /** Replacing one thread by another with `gone` less to do. */
  lemma {:induction false} TodoUpdate(threads: seq<Thread>, t: nat, x: Thread, gone: multiset<Check>)
    requires t < |threads| && Todo(threads[t]) == Todo(x) + gone
    ensures TodoAll(threads) == TodoAll(threads[t := x]) + gone
  {
    if t > 0 {
      assert threads[t := x][1..] == threads[1..][t - 1 := x];
      TodoUpdate(threads[1..], t - 1, x, gone);
    } else {
      assert threads[t := x][1..] == threads[1..];
    }
  }

  lemma {:induction false} TodoSame(a: seq<Thread>, b: seq<Thread>)
    requires |a| == |b| && forall i | 0 <= i < |a| :: Todo(a[i]) == Todo(b[i])
    ensures TodoAll(a) == TodoAll(b)
  {
    if a != [] { TodoSame(a[1..], b[1..]); }
  }

  // What every step keeps

  function InFlight(x: Thread): int {
    match x
    case AtTop(nNow, _) => nNow
    case Working(_, nNow, _) => nNow
    case _ => 0
  }

  function Idle(x: Thread): int { if x.Waiting? then 1 else 0 }

  function Counted(x: Thread): int { if x.Outside? || (x.AtTop? && x.nNow == 0) then 0 else 1 }

  predicate WellFormed(x: Thread) {
    match x
    case AtTop(nNow, fOk) => nNow == 0 ==> fOk
    case Working(todo, nNow, _) => 1 <= nNow && |todo| <= nNow
    case _ => true
  }

  /** The thread knows of no failure. */
  predicate ThreadOk(x: Thread) {
    (x.AtTop? || x.Working?) ==> x.fOk
  }

  predicate AllThreadsOk(threads: seq<Thread>) {
    forall t | 0 <= t < |threads| :: ThreadOk(threads[t])
  }

  /** nTodo is the number of checks queued or in flight, and the thread counters are exact. */
  predicate CountersExact(s: State) {
    && s.nTodo == |s.queue| + Total(InFlight, s.threads)
    && s.nIdle == Total(Idle, s.threads)
    && s.nTotal == Total(Counted, s.threads)
  }

  /** The checks dealt with so far are all true exactly when nobody knows of a failure. */
  predicate VerdictOpen(s: State) {
    AllOk(s.dealt) <==> s.fAllOk && AllThreadsOk(s.threads)
  }

  /** Every check added is queued, in some batch, or dealt with. */
  predicate Conserved(s: State) {
    multiset(s.added) == multiset(s.queue) + TodoAll(s.threads) + s.dealt
  }

  /** The master waits only with nothing queued, and not without notice once everything is done. */
  predicate MasterCalled(s: State)
    requires s.threads != []
  {
    s.threads[MASTER].Waiting? ==> s.queue == [] && (!s.threads[MASTER].notified ==> s.nTodo > 0)
  }

  predicate Inv(s: State) {
    && s.threads != [] && (forall t | 0 <= t < |s.threads| :: WellFormed(s.threads[t]))
    && CountersExact(s) && VerdictOpen(s) && Conserved(s) && MasterCalled(s)
  }

  /** Replacing one thread changes the totals by the difference it makes. */
  lemma Switch(threads: seq<Thread>, t: nat, x: Thread)
    requires t < |threads|
    ensures Total(InFlight, threads[t := x]) == Total(InFlight, threads) - InFlight(threads[t]) + InFlight(x)
    ensures Total(Idle, threads[t := x]) == Total(Idle, threads) - Idle(threads[t]) + Idle(x)
    ensures Total(Counted, threads[t := x]) == Total(Counted, threads) - Counted(threads[t]) + Counted(x)
    ensures AllThreadsOk(threads[t := x]) && ThreadOk(threads[t]) <==> AllThreadsOk(threads) && ThreadOk(x)
    ensures (AllThreadsOk(threads) ==> ThreadOk(threads[t])) && (AllThreadsOk(threads[t := x]) ==> ThreadOk(x))
  {
    TotalUpdate(InFlight, threads, t, x);
    TotalUpdate(Idle, threads, t, x);
    TotalUpdate(Counted, threads, t, x);
    SwitchOk(threads, t, x);
  }

  lemma SwitchOk(threads: seq<Thread>, t: nat, x: Thread)
    requires t < |threads|
    ensures AllThreadsOk(threads[t := x]) && ThreadOk(threads[t]) <==> AllThreadsOk(threads) && ThreadOk(x)
    ensures (AllThreadsOk(threads) ==> ThreadOk(threads[t])) && (AllThreadsOk(threads[t := x]) ==> ThreadOk(x))
  {
    hide ThreadOk;
    if AllThreadsOk(threads[t := x]) && ThreadOk(threads[t]) {
      forall i | 0 <= i < |threads| ensures ThreadOk(threads[i]) { assert ThreadOk(threads[t := x][i]); }
    }
    assert AllThreadsOk(threads[t := x]) ==> ThreadOk(threads[t := x][t]);
  }

  lemma TotalsPositive(threads: seq<Thread>)
    requires forall t | 0 <= t < |threads| :: WellFormed(threads[t])
    ensures Total(InFlight, threads) >= 0 && Total(Idle, threads) >= 0 && Total(Counted, threads) >= 0
    ensures forall t | 0 <= t < |threads| :: InFlight(threads[t]) <= Total(InFlight, threads)
    ensures forall t | 0 <= t < |threads| :: Idle(threads[t]) <= Total(Idle, threads)
  {
    TotalPositive(InFlight, threads);
    TotalPositive(Idle, threads);
    TotalPositive(Counted, threads);
  }

  /** With nothing in flight no thread has anything to do or to report. */
  lemma {:induction false} Quiet(threads: seq<Thread>)
    requires (forall t | 0 <= t < |threads| :: WellFormed(threads[t])) && Total(InFlight, threads) == 0
    ensures TodoAll(threads) == multiset{} && AllThreadsOk(threads)
  {
    TotalsPositive(threads);
    if threads != [] {
      TotalsPositive(threads[1..]);
      Quiet(threads[1..]);
      forall t | 0 <= t < |threads| ensures ThreadOk(threads[t]) {
        if t > 0 { assert ThreadOk(threads[1..][t - 1]); }
      }
    }
  }

  lemma {:induction false} TakenMultiset(queue: seq<Check>, n: nat)
    requires n <= |queue|
    ensures multiset(queue) == multiset(queue[..|queue| - n]) + multiset(Taken(queue, n))
  {
    if n > 0 {
      var k := |queue| - n;
      TakenMultiset(queue, n - 1);
      assert queue[..k + 1] == queue[..k] + [queue[k]];
      assert Taken(queue, n) == Taken(queue, n - 1) + [queue[k]];
    } else {
      assert queue[..|queue|] == queue && Taken(queue, 0) == [];
    }
  }

  /** The invariant while thread `t` holds the mutex: it is counted, and has nothing in flight. */
  predicate InvLocked(s: State, t: nat) {
    && t < |s.threads| && s.threads[t] == AtTop(0, true)
    && (forall t | 0 <= t < |s.threads| :: WellFormed(s.threads[t]))
    && CountersExact(s.(nTotal := s.nTotal - 1)) && VerdictOpen(s) && Conserved(s) && MasterCalled(s)
  }

  lemma WorkKeeps(s: State, t: nat)
    requires Inv(s) && t < |s.threads| && s.threads[t].Working?
    ensures Inv(Worked(s, t))
  {
    hide Total, Conserved, AllThreadsOk, AllOk;
    var w, s' := s.threads[t], Worked(s, t);
    Switch(s.threads, t, s'.threads[t]);
    WorkConserves(s, t);
    if w.todo != [] { DealtWith(s.dealt, w.todo[0]); }
  }

  lemma WorkConserves(s: State, t: nat)
    requires Conserved(s) && t < |s.threads| && s.threads[t].Working?
    ensures Conserved(Worked(s, t))
  {
    hide TodoAll;
    var w, s' := s.threads[t], Worked(s, t);
    if w.todo == [] {
      TodoUpdate(s.threads, t, s'.threads[t], multiset{});
    } else {
      TodoHead(w.todo);
      TodoUpdate(s.threads, t, s'.threads[t], multiset{w.todo[0]});
      Moved(multiset(s.queue), TodoAll(s'.threads), multiset{w.todo[0]}, s.dealt);
    }
  }

  lemma TodoHead(todo: seq<Check>)
    requires todo != []
    ensures multiset(todo) == multiset(todo[1..]) + multiset{todo[0]}
  {
    assert todo == [todo[0]] + todo[1..];
  }

  lemma DealtWith(dealt: multiset<Check>, c: Check)
    ensures AllOk(dealt + multiset{c}) <==> AllOk(dealt) && c.ok
  {
    assert c in dealt + multiset{c};
  }

  lemma Moved(a: multiset<Check>, b: multiset<Check>, x: multiset<Check>, d: multiset<Check>)
    ensures a + (b + x) + d == a + b + (d + x)
  {
  }

  lemma EnterKeeps(s: State, t: nat)
    requires Inv(s) && t < |s.threads| && s.threads[t].Outside?
    ensures Inv(s.(threads := s.threads[t := AtTop(0, true)]))
  {
    hide Total, TodoAll, AllThreadsOk;
    Switch(s.threads, t, AtTop(0, true));
    TodoUpdate(s.threads, t, AtTop(0, true), multiset{});
  }

  /** Notifying threads changes none of the totals. */
  lemma Notified(a: seq<Thread>, b: seq<Thread>)
    requires |a| == |b| && forall t | 0 <= t < |a| :: b[t] == a[t] || b[t] == Notify(a[t])
    ensures Total(InFlight, b) == Total(InFlight, a) && Total(Idle, b) == Total(Idle, a)
    ensures Total(Counted, b) == Total(Counted, a) && TodoAll(b) == TodoAll(a)
    ensures AllThreadsOk(b) <==> AllThreadsOk(a)
  {
    TotalSame(InFlight, a, b);
    TotalSame(Idle, a, b);
    TotalSame(Counted, a, b);
    TodoSame(a, b);
    assert forall t | 0 <= t < |a| :: ThreadOk(b[t]) <==> ThreadOk(a[t]);
  }

  lemma AddKeeps(s: State, checks: seq<Check>, woken: nat)
    requires Inv(s) && s.threads[MASTER].Outside?
    ensures Inv(AddChecks(s, checks, woken))
  {
    hide Total, TodoAll, AllThreadsOk, AllOk;
    Notified(s.threads, NotifyWorkers(s.threads, |checks|, woken));
    AddConserves(multiset(s.queue), multiset(checks), TodoAll(s.threads), s.dealt);
  }

  lemma AddConserves(q: multiset<Check>, x: multiset<Check>, a: multiset<Check>, d: multiset<Check>)
    ensures q + a + d + x == (q + x) + a + d
  {
  }

  lemma LockKeeps(s: State, t: nat)
    requires Inv(s) && t < |s.threads| && s.threads[t].AtTop?
    ensures InvLocked(Locked(s, t), t)
  {
    hide CountersExact, Conserved, VerdictOpen, MasterCalled, Locked;
    LockCounts(s, t);
    LockConserves(s, t);
    LockCalls(s, t);
  }

  lemma LockConserves(s: State, t: nat)
    requires t < |s.threads| && s.threads[t].AtTop? && Conserved(s)
    ensures Conserved(Locked(s, t))
  {
    hide Conserved, TodoAll;
    var s1 := CleanUp(s, t);
    Notified(s.threads, s1.threads);
    TodoUpdate(s1.threads, t, AtTop(0, true), multiset{});
    StillConserved(s, Locked(s, t));
  }

  lemma LockCalls(s: State, t: nat)
    requires s.threads != [] && t < |s.threads| && s.threads[t].AtTop? && MasterCalled(s) && Locked(s, t).nTodo >= 0
    requires forall t | 0 <= t < |s.threads| :: WellFormed(s.threads[t])
    ensures var s2 := Locked(s, t);
      && t < |s2.threads| && s2.threads[t] == AtTop(0, true) && MasterCalled(s2)
      && forall t | 0 <= t < |s2.threads| :: WellFormed(s2.threads[t])
  {
  }

  lemma LockCounts(s: State, t: nat)
    requires t < |s.threads| && s.threads[t].AtTop? && CountersExact(s) && VerdictOpen(s)
    requires forall t | 0 <= t < |s.threads| :: WellFormed(s.threads[t])
    ensures var s2 := Locked(s, t);
      CountersExact(s2.(nTotal := s2.nTotal - 1)) && VerdictOpen(s2) && s2.nTodo >= 0
  {
    hide Total, AllThreadsOk, AllOk;
    var s1 := CleanUp(s, t);
    Notified(s.threads, s1.threads);
    Switch(s1.threads, t, AtTop(0, true));
    TotalsPositive(s.threads);
  }

  lemma StillConserved(s: State, s': State)
    requires Conserved(s) && s'.added == s.added && s'.queue == s.queue && s'.dealt == s.dealt
    requires TodoAll(s.threads) == TodoAll(s'.threads) + multiset{}
    ensures Conserved(s')
  {
  }

  lemma WakeKeeps(s: State, t: nat)
    requires Inv(s) && t < |s.threads| && s.threads[t].Waiting?
    ensures InvLocked(Woken(s, t), t)
  {
    hide Total, TodoAll, AllThreadsOk;
    Switch(s.threads, t, AtTop(0, true));
    TodoUpdate(s.threads, t, AtTop(0, true), multiset{});
  }

  /** Whoever holds the mutex returns, waits or takes a batch; when the master returns, everything added
      is dealt with, nothing is in flight, and the result tells whether every check was true. */
  lemma ProceedKeeps(s: State, t: nat)
    requires InvLocked(s, t) && s.nTotal >= 0 && s.nIdle >= 0
    ensures Inv(Proceed(s, t))
    ensures t == MASTER && Proceed(s, t).threads[t].Outside? ==>
      && multiset(s.added) == s.dealt && s.queue == [] && Total(InFlight, s.threads) == 0
      && Proceed(s, t).last == Some(AllOk(multiset(s.added)))
  {
    hide Inv, InvLocked, Total, AllOk, BatchSize;
    LockedIn(s, t);
    if s.queue != [] {
      TakingKeeps(s, t);
    } else if (t == MASTER || s.fQuit) && s.nTodo == 0 {
      ReturningKeeps(s, t);
    } else {
      WaitingKeeps(s, t);
    }
  }

  lemma LockedIn(s: State, t: nat)
    requires InvLocked(s, t)
    ensures t < |s.threads|
  {
  }

  lemma ReturningKeeps(s: State, t: nat)
    requires InvLocked(s, t) && s.nTotal >= 0 && s.nIdle >= 0
    requires s.queue == [] && (t == MASTER || s.fQuit) && s.nTodo == 0
    ensures Inv(Proceed(s, t))
    ensures t == MASTER ==>
      && multiset(s.added) == s.dealt && Total(InFlight, s.threads) == 0
      && Proceed(s, t).last == Some(AllOk(multiset(s.added)))
  {
    hide Total, TodoAll, AllThreadsOk, AllOk, BatchSize;
    var s' := Proceed(s, t);
    Switch(s.threads, t, Outside);
    TotalsPositive(s.threads);
    TodoUpdate(s.threads, t, Outside, multiset{});
    if t == MASTER {
      Quiet(s.threads);
      Quiet(s'.threads);
      NothingDealt();
    }
  }

  lemma WaitingKeeps(s: State, t: nat)
    requires InvLocked(s, t) && s.nTotal >= 0 && s.nIdle >= 0
    requires s.queue == [] && !((t == MASTER || s.fQuit) && s.nTodo == 0)
    ensures Inv(Proceed(s, t)) && !Proceed(s, t).threads[t].Outside?
  {
    hide Total, TodoAll, AllThreadsOk, AllOk, BatchSize;
    Switch(s.threads, t, Waiting(false));
    TotalsPositive(s.threads);
    TodoUpdate(s.threads, t, Waiting(false), multiset{});
  }

  lemma TakingKeeps(s: State, t: nat)
    requires InvLocked(s, t) && s.nTotal >= 0 && s.nIdle >= 0 && s.queue != []
    ensures Inv(Proceed(s, t)) && !Proceed(s, t).threads[t].Outside?
  {
    hide Total, TodoAll, AllThreadsOk, AllOk, BatchSize;
    Switch(s.threads, t, Proceed(s, t).threads[t]);
    TotalsPositive(s.threads);
    TakeConserves(s, t);
  }

  lemma NothingDealt()
    ensures AllOk(multiset{})
  {
  }

  lemma TakeConserves(s: State, t: nat)
    requires t < |s.threads| && s.nTotal >= 0 && s.nIdle >= 0 && s.queue != [] && Conserved(s)
    requires Todo(s.threads[t]) == multiset{}
    ensures Conserved(Proceed(s, t))
  {
    hide TodoAll, AllOk;
    var s' := Proceed(s, t);
    var n := BatchSize(s);
    var batch := Taken(s.queue, n);
    TakenMultiset(s.queue, n);
    TodoUpdate(s'.threads, t, s.threads[t], multiset(batch));
    assert s'.threads[t := s.threads[t]] == s.threads;
    TakeMoves(multiset(s'.queue), multiset(batch), TodoAll(s.threads), s.dealt);
  }

  lemma TakeMoves(q: multiset<Check>, x: multiset<Check>, a: multiset<Check>, d: multiset<Check>)
    ensures (q + x) + a + d == q + (a + x) + d
  {
  }

  lemma StepKeeps(s: State, step: Step)
    requires Inv(s) && Enabled(s, step)
    ensures Inv(Apply(s, step))
  {
    hide Inv, InvLocked, Proceed, Locked, Woken, Worked, AddChecks;
    InvFacts(s);
    match step
    case Add(checks, woken) => AddKeeps(s, checks, woken);
    case Enter(t) => EnterKeeps(s, t);
    case Lock(t) => LockKeeps(s, t); LockedCounts(s, t); ProceedKeeps(Locked(s, t), t);
    case Wake(t) => WakeKeeps(s, t); LockedCounts(s, t); ProceedKeeps(Woken(s, t), t);
    case Work(t) => WorkKeeps(s, t);
  }

  lemma InvFacts(s: State)
    requires Inv(s)
    ensures s.threads != []
  {
  }

  lemma LockedCounts(s: State, t: nat)
    requires t < |s.threads|
    ensures s.threads[t].AtTop? && s.nTotal >= 0 && s.nIdle >= 0 ==> Locked(s, t).nTotal >= 0 && Locked(s, t).nIdle >= 0
    ensures s.nTotal >= 0 && s.nIdle >= 1 ==> Woken(s, t).nTotal >= 0 && Woken(s, t).nIdle >= 0
  {
  }

  // Runs

  predicate Possible(s: State, steps: seq<Step>)
    decreases |steps|
  {
    steps != [] ==> Enabled(s, steps[0]) && Possible(Apply(s, steps[0]), steps[1..])
  }

  function Run(s: State, steps: seq<Step>): State
    requires Possible(s, steps)
    decreases |steps|
  {
    if steps == [] then s else Run(Apply(s, steps[0]), steps[1..])
  }

  lemma InitInv(nBatchSize: nat, workers: nat)
    ensures Inv(Init(nBatchSize, workers))
  {
    hide Total, TodoAll;
    AllOutside(Init(nBatchSize, workers).threads);
  }

  lemma {:induction false} AllOutside(threads: seq<Thread>)
    requires forall t | 0 <= t < |threads| :: threads[t] == Outside
    ensures Total(InFlight, threads) == Total(Idle, threads) == Total(Counted, threads) == 0
    ensures TodoAll(threads) == multiset{}
  {
    if threads != [] { AllOutside(threads[1..]); }
  }

  /** In every interleaving, from the start on, the invariant holds. */
  lemma {:induction false} EveryRun(s: State, steps: seq<Step>)
    requires Inv(s) && Possible(s, steps)
    ensures Inv(Run(s, steps))
    decreases |steps|
  {
    if steps != [] {
      StepKeeps(s, steps[0]);
      EveryRun(Apply(s, steps[0]), steps[1..]);
    }
  }

  /** The master returns from Wait in this step. */
  predicate WaitReturns(s: State, step: Step) {
    s.threads != [] && !s.threads[MASTER].Outside? && Enabled(s, step) &&
    var threads := Apply(s, step).threads;
    threads != [] && threads[MASTER].Outside?
  }

  /** Only the master itself, holding the mutex, makes Wait return. */
  lemma OnlyMasterReturns(s: State, step: Step)
    requires WaitReturns(s, step)
    ensures step == Lock(MASTER) || step == Wake(MASTER)
  {
    hide Proceed, Locked, Woken, Worked;
    match step
    case Lock(t) => LockedThreads(s, t); ProceedThreads(Locked(s, t), t);
    case Wake(t) => WokenThreads(s, t); ProceedThreads(Woken(s, t), t);
    case Work(t) => WorkedThreads(s, t);
    case _ =>
  }

  /** Wait returns only when every check added was executed or skipped, nothing is queued and no other
      thread has any check in flight; and it returns true exactly when all of them are true. */
  lemma ReturnStep(s: State, step: Step)
    requires Inv(s) && WaitReturns(s, step)
    ensures Apply(s, step).last == Some(AllOk(multiset(s.added)))
    ensures multiset(s.added) == s.dealt && s.queue == []
    ensures forall t | 1 <= t < |s.threads| :: InFlight(s.threads[t]) == 0
  {
    OnlyMasterReturns(s, step);
    var held := MasterHolds(s, step);
    hide *;
    ProceedKeeps(held, MASTER);
    LockedPositive(held);
  }

  /** The state in which the master, about to return, holds the mutex. */
  lemma MasterHolds(s: State, step: Step) returns (held: State)
    requires Inv(s) && WaitReturns(s, step) && (step == Lock(MASTER) || step == Wake(MASTER))
    ensures InvLocked(held, MASTER) && held.nTotal >= 0 && held.nIdle >= 0
    ensures Apply(s, step) == Proceed(held, MASTER) && Proceed(held, MASTER).threads[MASTER].Outside?
    ensures held.added == s.added && held.queue == s.queue && held.dealt == s.dealt && |held.threads| == |s.threads|
    ensures forall t | 1 <= t < |s.threads| :: held.threads[t] == s.threads[t]
  {
    hide Inv, InvLocked, Proceed;
    if step.Lock? {
      LockKeeps(s, MASTER);
      return Locked(s, MASTER);
    } else {
      WakeKeeps(s, MASTER);
      return Woken(s, MASTER);
    }
  }

  lemma LockedPositive(s: State)
    requires InvLocked(s, MASTER) && Total(InFlight, s.threads) == 0
    ensures forall t | 1 <= t < |s.threads| :: InFlight(s.threads[t]) == 0
  {
    TotalsPositive(s.threads);
  }

  /** The verdict of Wait in every interleaving of the master and any number of workers. */
  lemma WaitVerdict(nBatchSize: nat, workers: nat, steps: seq<Step>, step: Step)
    requires Possible(Init(nBatchSize, workers), steps) && WaitReturns(Run(Init(nBatchSize, workers), steps), step)
    ensures var s := Run(Init(nBatchSize, workers), steps);
      Apply(s, step).last == Some(AllOk(multiset(s.added))) && multiset(s.added) == s.dealt
  {
    hide Inv, WaitReturns, Apply, AllOk;
    InitInv(nBatchSize, workers);
    EveryRun(Init(nBatchSize, workers), steps);
    ReturnStep(Run(Init(nBatchSize, workers), steps), step);
  }

  /** A master that waits without having been notified can count on a worker: some worker has checks in
      flight, and the one that finishes last notifies it. */
  lemma MasterIsCalled(s: State)
    requires Inv(s) && s.threads[MASTER] == Waiting(false)
    ensures exists t :: 1 <= t < |s.threads| && InFlight(s.threads[t]) > 0
    ensures forall t | 1 <= t < |s.threads| && s.threads[t].AtTop? && s.threads[t].nNow == s.nTodo ::
      Locked(s, t).threads[MASTER] == Waiting(true)
  {
    if forall t | 1 <= t < |s.threads| :: InFlight(s.threads[t]) <= 0 {
      NoneInFlight(s.threads);
      assert false;
    }
  }

  lemma {:induction false} NoneInFlight(threads: seq<Thread>)
    requires forall t | 0 <= t < |threads| :: InFlight(threads[t]) <= 0
    ensures Total(InFlight, threads) <= 0
  {
    if threads != [] { NoneInFlight(threads[1..]); }
  }

  // Progress

  function Effort(x: Thread): int {
    match x
    case AtTop(nNow, _) => if nNow > 0 then 1 else 0
    case Working(todo, _, _) => |todo| + 2
    case _ => 0
  }

  /** What is left to do: it bounds the number of steps that do something. */
  function Rank(s: State): int { 4 * |s.queue| + Total(Effort, s.threads) }

  /** As long as the master is in Wait, some thread can take a step that gets the work further on or
      lets the master return; and it need not be a wait that ends without a notification. */
  lemma NoDeadlock(s: State)
    requires Inv(s) && !s.threads[MASTER].Outside?
    ensures exists step ::
      && Enabled(s, step) && (step.Wake? ==> s.threads[step.t].notified)
      && (WaitReturns(s, step) || Rank(Apply(s, step)) < Rank(s))
  {
    if t :| 0 <= t < |s.threads| && s.threads[t].Working? {
      hide Inv, Rank, Worked;
      WorkGetsOn(s, t);
      assert Enabled(s, Work(t));
    } else if t :| 0 <= t < |s.threads| && s.threads[t].AtTop?
                   && (s.threads[t].nNow > 0 || (t == MASTER && s.queue != [])) {
      hide Inv, Rank, Proceed, Locked;
      LockGetsOn(s, t);
      assert Enabled(s, Lock(t));
    } else {
      MasterGoes(s);
    }
  }

  /** The steps need no further checks and no wait that ends without a notification. */
  ghost predicate Calm(s: State, steps: seq<Step>)
    requires Possible(s, steps)
    decreases |steps|
  {
    steps != [] ==>
      && !steps[0].Add? && (steps[0].Wake? ==> s.threads[steps[0].t].notified)
      && Calm(Apply(s, steps[0]), steps[1..])
  }

  /** From every state with the master in Wait, a bounded number of steps makes it return, with the right verdict. */
  lemma {:induction false} WaitCanReturn(s: State) returns (steps: seq<Step>)
    requires Inv(s) && !s.threads[MASTER].Outside?
    ensures Possible(s, steps) && Calm(s, steps) && |steps| <= Rank(s) + 1
    ensures Run(s, steps).last == Some(AllOk(multiset(s.added)))
    ensures Run(s, steps).threads != [] && Run(s, steps).threads[MASTER].Outside?
    decreases Rank(s)
  {
    hide Inv, Rank, Apply, WaitReturns, AllOk;
    NoDeadlock(s);
    RankPositive(s);
    var step :| Enabled(s, step) && (step.Wake? ==> s.threads[step.t].notified)
             && (WaitReturns(s, step) || Rank(Apply(s, step)) < Rank(s));
    var s' := Apply(s, step);
    if WaitReturns(s, step) {
      ReturnStep(s, step);
      MasterOut(s, step);
      steps := [step];
      assert steps[1..] == [];
    } else {
      StepKeeps(s, step);
      StillWaits(s, step);
      var rest := WaitCanReturn(s');
      steps := [step] + rest;
      assert steps[1..] == rest;
    }
  }

  lemma RankPositive(s: State)
    ensures Rank(s) >= 0
  {
    TotalPositive(Effort, s.threads);
  }

  lemma MasterOut(s: State, step: Step)
    requires WaitReturns(s, step)
    ensures !step.Add? && Apply(s, step).threads != [] && Apply(s, step).threads[MASTER].Outside?
  {
  }

  /** A step that does not let Wait return leaves the master in it, and all checks are still accounted for. */
  lemma StillWaits(s: State, step: Step)
    requires Inv(s) && !s.threads[MASTER].Outside? && Enabled(s, step) && !WaitReturns(s, step)
    ensures !step.Add? && |Apply(s, step).threads| == |s.threads| > 0
    ensures !Apply(s, step).threads[MASTER].Outside? && Apply(s, step).added == s.added
  {
    hide Inv, Proceed, Locked, Woken, Worked;
    InvFacts(s);
    match step
    case Lock(t) => LockedThreads(s, t); ProceedThreads(Locked(s, t), t);
    case Wake(t) => WokenThreads(s, t); ProceedThreads(Woken(s, t), t);
    case Work(t) => WorkedThreads(s, t);
    case _ =>
  }

  /** Only the thread itself moves, and only the master, returning, starts the books afresh. */
  lemma ProceedThreads(s: State, t: nat)
    requires t < |s.threads| && s.nTotal >= 0 && s.nIdle >= 0
    ensures var s' := Proceed(s, t);
      && |s'.threads| == |s.threads| && (forall u | 0 <= u < |s.threads| && u != t :: s'.threads[u] == s.threads[u])
      && (t != MASTER || !s'.threads[t].Outside? ==> s'.added == s.added)
  {
    hide BatchSize, Taken;
  }

  lemma LockedThreads(s: State, t: nat)
    requires t < |s.threads| && s.threads[t].AtTop?
    ensures var s' := Locked(s, t);
      && |s'.threads| == |s.threads| && s'.added == s.added && s'.threads[t] == AtTop(0, true)
      && (forall u | 0 <= u < |s.threads| && u != t :: s'.threads[u].Outside? <==> s.threads[u].Outside?)
      && s'.nTotal >= s.nTotal && s'.nIdle == s.nIdle
  {
  }

  lemma WokenThreads(s: State, t: nat)
    requires t < |s.threads|
    ensures var s' := Woken(s, t);
      && |s'.threads| == |s.threads| && s'.added == s.added && s'.nTotal == s.nTotal && s'.nIdle == s.nIdle - 1
      && (forall u | 0 <= u < |s.threads| && u != t :: s'.threads[u] == s.threads[u])
  {
  }

  lemma WorkedThreads(s: State, t: nat)
    requires t < |s.threads| && s.threads[t].Working?
    ensures var s' := Worked(s, t);
      && |s'.threads| == |s.threads| && s'.added == s.added && !s'.threads[t].Outside?
      && (forall u | 0 <= u < |s.threads| && u != t :: s'.threads[u] == s.threads[u])
  {
  }

  /** With nothing in flight the master is awake or was notified, finds all done and returns. */
  lemma MasterGoes(s: State)
    requires Inv(s) && !s.threads[MASTER].Outside?
    requires forall t | 0 <= t < |s.threads| ::
      InFlight(s.threads[t]) <= 0 && (s.threads[t].AtTop? && t == MASTER ==> s.queue == [])
    ensures s.threads[MASTER].AtTop? || s.threads[MASTER] == Waiting(true)
    ensures WaitReturns(s, if s.threads[MASTER].AtTop? then Lock(MASTER) else Wake(MASTER))
  {
    TotalsPositive(s.threads);
    NoneInFlight(s.threads);
    hide Total;
  }

  lemma WorkGetsOn(s: State, t: nat)
    requires Inv(s) && t < |s.threads| && s.threads[t].Working?
    ensures Rank(Worked(s, t)) < Rank(s)
  {
    TotalUpdate(Effort, s.threads, t, Worked(s, t).threads[t]);
  }

  /** Until something is added, no step undoes any work. */
  lemma NoStepBack(s: State, step: Step)
    requires Inv(s) && Enabled(s, step) && !step.Add?
    ensures Rank(Apply(s, step)) <= Rank(s)
  {
    match step
    case Enter(t) => TotalUpdate(Effort, s.threads, t, AtTop(0, true));
    case Lock(t) =>
      hide Inv, Rank, Proceed, Locked;
      LockGetsOn(s, t);
    case Wake(t) =>
      var s1 := Woken(s, t);
      hide Total;
      TotalUpdate(Effort, s.threads, t, AtTop(0, true));
      TotalUpdate(Effort, s1.threads, t, Proceed(s1, t).threads[t]);
    case Work(t) =>
      hide Inv, Rank, Worked;
      WorkGetsOn(s, t);
  }

  lemma LockGetsOn(s: State, t: nat)
    requires Inv(s) && t < |s.threads| && s.threads[t].AtTop?
    ensures s.nTotal >= 0 && s.nIdle >= 0
    ensures var s' := Proceed(Locked(s, t), t);
      || Rank(s') < Rank(s)
      || (s.threads[t].nNow == 0 && s.queue == [] && Rank(s') == Rank(s))
  {
    TotalsPositive(s.threads);
    var s1 := CleanUp(s, t);
    TotalSame(Effort, s.threads, s1.threads);
    var s2 := Locked(s, t);
    TotalUpdate(Effort, s1.threads, t, AtTop(0, true));
    hide Total;
    TotalUpdate(Effort, s2.threads, t, Proceed(s2, t).threads[t]);
  }
}
