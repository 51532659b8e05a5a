/**
 The parallel check queue (src/checkqueue.h) as a state machine.  One master (thread 0) adds
 checks and then calls Wait; any number of workers run the same loop.  A step is one section
 executed under the mutex, or the execution of one check outside it.  Waiting threads may be
 woken by a notification or spuriously.
 */
module CheckQueue {

  /** A verification; `passes` is what its operator() returns. */
  datatype Check = Check(id: nat, passes: bool)

  datatype Thread =
    | Outside                                         // not in Loop
    | InLock                                          // inside the mutex, holding no batch
    | Asleep(notified: bool)                          // in cond.wait
    | Running(batch: seq<Check>, done: nat, fOk: bool) // executing its batch outside the mutex

  /** One finished call of Wait: what had been added since the previous one, and what it returned. */
  datatype WaitRecord = WaitRecord(added: seq<Check>, result: bool)

  /** The queue's fields, the threads, and history: `added` and `finished` since the last Wait. */
  datatype State = State(
    queue: seq<Check>, nIdle: int, nTotal: int, fAllOk: bool, nTodo: int, fQuit: bool, nBatchSize: nat,
    threads: seq<Thread>,
    added: seq<Check>, finished: multiset<Check>, waits: seq<WaitRecord>)

  datatype Step =
    | Enter(t: nat)                                  // Thread() or Wait(): first pass through the mutex
    | Execute(t: nat)                                // run the next check of the batch
    | Flush(t: nat)                                  // report the finished batch, then look for work
    | Wake(t: nat)                                   // return from cond.wait
    | Add(checks: seq<Check>, chosen: nat)           // the master adds checks; `chosen` is who notify_one wakes

  function Min(a: int, b: int): int { if a < b then a else b }
  function Max(a: int, b: int): int { if a > b then a else b }

  /** How many work units a thread takes from a nonempty queue. */
  function BatchSize(s: State): (n: int)
    requires s.nTotal >= 0 && s.nIdle >= 0 && s.queue != []
    ensures 1 <= n <= |s.queue|
    ensures n > 1 ==> n <= s.nBatchSize && n * (s.nTotal + s.nIdle + 1) <= |s.queue|
    ensures n >= s.nBatchSize || (n + 1) * (s.nTotal + s.nIdle + 1) > |s.queue|
  {
    LargestShare(|s.queue|, s.nTotal + s.nIdle + 1);
    Max(1, Min(s.nBatchSize, |s.queue| / (s.nTotal + s.nIdle + 1)))
  }

  lemma LargestShare(q: nat, k: nat)
    requires k >= 1
    ensures 0 <= q / k <= q && q / k * k <= q < (q / k + 1) * k
  {
  }

  /** The last `n` elements of the queue, in the order they are popped. */
  function Popped(q: seq<Check>, n: nat): (r: seq<Check>)
    requires n <= |q|
    ensures |r| == n
  {
    if n == 0 then [] else [q[|q| - 1]] + Popped(q[..|q| - 1], n - 1)
  }

  predicate HasWaiter(threads: seq<Thread>)
  {
    exists t :: 1 <= t < |threads| && threads[t] == Asleep(false)
  }

  function NotifyMaster(threads: seq<Thread>): seq<Thread>
    requires |threads| > 0
  {
    if threads[0].Asleep? then threads[0 := Asleep(true)] else threads
  }

  function NotifyWorkers(threads: seq<Thread>): (r: seq<Thread>)
    requires |threads| > 0
    ensures |r| == |threads|
  {
    seq(|threads|, i requires 0 <= i < |threads| =>
      if i > 0 && threads[i].Asleep? then Asleep(true) else threads[i])
  }

  /** The section from the emptiness test to the end of the mutex: return, wait, or take a batch. */
  function Dispatch(s: State, t: nat): State
    requires t < |s.threads| && s.nTotal >= 0 && s.nIdle >= 0
  {
    if s.queue == [] then
      if (t == 0 || s.fQuit) && s.nTodo == 0 then
        if t == 0 then
          s.(nTotal := s.nTotal - 1, threads := s.threads[t := Outside], fAllOk := true,
             added := [], finished := multiset{}, waits := s.waits + [WaitRecord(s.added, s.fAllOk)])
        else s.(nTotal := s.nTotal - 1, threads := s.threads[t := Outside])
      else s.(nIdle := s.nIdle + 1, threads := s.threads[t := Asleep(false)])
    else
      var n := BatchSize(s);
      s.(queue := s.queue[..|s.queue| - n],
         threads := s.threads[t := Running(Popped(s.queue, n), 0, s.fAllOk)])
  }

  predicate Enabled(s: State, step: Step)
  {
    match step
    case Enter(t) => t < |s.threads| && s.threads[t].Outside?
    case Execute(t) => t < |s.threads| && s.threads[t].Running? && s.threads[t].done < |s.threads[t].batch|
    case Flush(t) => t < |s.threads| && s.threads[t].Running? && s.threads[t].done == |s.threads[t].batch|
    case Wake(t) => t < |s.threads| && s.threads[t].Asleep?
    case Add(checks, chosen) =>
      && |s.threads| > 0 && s.threads[0].Outside?
      && (|checks| == 1 && HasWaiter(s.threads) ==>
            1 <= chosen < |s.threads| && s.threads[chosen] == Asleep(false))
  }

  /** The state a thread is in when it reaches the emptiness test. */
  function Locked(s: State, step: Step): State
    requires Enabled(s, step) && (step.Enter? || step.Flush? || step.Wake?)
  {
    var inside := s.(threads := s.threads[step.t := InLock]);
    match step
    case Enter(_) => inside.(nTotal := s.nTotal + 1)
    case Wake(_) => inside.(nIdle := s.nIdle - 1)
    case Flush(t) =>
      var r := s.threads[t];
      var todo := s.nTodo - |r.batch|;
      inside.(fAllOk := s.fAllOk && r.fOk, nTodo := todo,
              threads := if todo == 0 && t != 0 then NotifyMaster(inside.threads) else inside.threads,
              finished := s.finished + multiset(r.batch))
  }

  function Executed(r: Thread): Thread
    requires r.Running? && r.done < |r.batch|
  {
    r.(done := r.done + 1, fOk := r.fOk && r.batch[r.done].passes)
  }

  function Added(s: State, checks: seq<Check>, chosen: nat): State
    requires Enabled(s, Step.Add(checks, chosen))
  {
    var threads :=
      if |checks| == 1 then
        if HasWaiter(s.threads) then s.threads[chosen := Asleep(true)] else s.threads
      else if |checks| > 1 then NotifyWorkers(s.threads)
      else s.threads;
    s.(queue := s.queue + checks, nTodo := s.nTodo + |checks|, threads := threads, added := s.added + checks)
  }

  predicate Counted(s: State) { s.nTotal >= 0 && s.nIdle >= 0 }

  ghost predicate Next(s: State, step: Step, s': State)
  {
    && Enabled(s, step)
    && match step
       case Execute(t) => s' == s.(threads := s.threads[t := Executed(s.threads[t])])
       case Add(checks, chosen) => s' == Added(s, checks, chosen)
       case _ => Counted(Locked(s, step)) && s' == Dispatch(Locked(s, step), step.t)
  }

  ghost predicate Init(s: State)
  {
    && s.queue == [] && s.nIdle == 0 && s.nTotal == 0 && s.fAllOk && s.nTodo == 0 && !s.fQuit
    && |s.threads| > 0 && (forall t :: 0 <= t < |s.threads| ==> s.threads[t].Outside?)
    && s.added == [] && s.finished == multiset{} && s.waits == []
  }

  // ---------------------------------------------------------------------------------------
  // Sums over the threads.
  // ---------------------------------------------------------------------------------------

  function SumBy(threads: seq<Thread>, f: Thread -> int): int
  {
    if threads == [] then 0 else SumBy(threads[..|threads| - 1], f) + f(threads[|threads| - 1])
  }

  lemma {:induction false} SumByUpdate(threads: seq<Thread>, f: Thread -> int, t: nat, r: Thread)
    requires t < |threads|
    ensures SumBy(threads[t := r], f) == SumBy(threads, f) - f(threads[t]) + f(r)
  {
    var n := |threads| - 1;
    if t < n {
      SumByUpdate(threads[..n], f, t, r);
      assert threads[t := r][..n] == threads[..n][t := r];
    } else {
      assert threads[t := r][..n] == threads[..n];
    }
  }

  lemma {:induction false} SumByBound(threads: seq<Thread>, f: Thread -> int, t: nat)
    requires t < |threads| && forall r :: f(r) >= 0
    ensures SumBy(threads, f) >= f(threads[t]) >= 0
  {
    var n := |threads| - 1;
    SumByNonNegative(threads[..n], f);
    if t < n {
      SumByBound(threads[..n], f, t);
    }
  }

  lemma {:induction false} SumByNonNegative(threads: seq<Thread>, f: Thread -> int)
    requires forall r :: f(r) >= 0
    ensures SumBy(threads, f) >= 0
  {
    if threads != [] {
      SumByNonNegative(threads[..|threads| - 1], f);
    }
  }

  lemma {:induction false} SumByEqual(threads: seq<Thread>, threads': seq<Thread>, f: Thread -> int)
    requires |threads| == |threads'|
    requires forall t :: 0 <= t < |threads| ==> f(threads[t]) == f(threads'[t])
    ensures SumBy(threads, f) == SumBy(threads', f)
  {
    if threads != [] {
      SumByEqual(threads[..|threads| - 1], threads'[..|threads| - 1], f);
    }
  }

  const IsAsleep: Thread -> int := (r: Thread) => if r.Asleep? then 1 else 0
  const IsInside: Thread -> int := (r: Thread) => if r.Outside? then 0 else 1
  const Held: Thread -> int := (r: Thread) => if r.Running? then |r.batch| else 0

  function HeldBy(r: Thread): multiset<Check> { if r.Running? then multiset(r.batch) else multiset{} }

  /** All checks in the threads' own batches. */
  function AllHeld(threads: seq<Thread>): multiset<Check>
  {
    if threads == [] then multiset{}
    else AllHeld(threads[..|threads| - 1]) + HeldBy(threads[|threads| - 1])
  }

  lemma {:induction false} AllHeldUpdate(threads: seq<Thread>, t: nat, r: Thread)
    requires t < |threads|
    ensures AllHeld(threads[t := r]) + HeldBy(threads[t]) == AllHeld(threads) + HeldBy(r)
  {
    var n := |threads| - 1;
    if t < n {
      AllHeldUpdate(threads[..n], t, r);
      assert threads[t := r][..n] == threads[..n][t := r];
      Rearrange(AllHeld(threads[..n][t := r]), AllHeld(threads[..n]), HeldBy(threads[t]), HeldBy(r), HeldBy(threads[n]));
    } else {
      assert threads[t := r][..n] == threads[..n];
    }
  }

  lemma Rearrange(a: multiset<Check>, b: multiset<Check>, x: multiset<Check>, y: multiset<Check>, z: multiset<Check>)
    requires a + x == b + y
    ensures (a + z) + x == (b + z) + y
  {
    assert (a + z) + x == (a + x) + z;
    assert (b + z) + y == (b + y) + z;
  }

  lemma Cancel(a: multiset<Check>, b: multiset<Check>, x: multiset<Check>)
    requires a + x == b + x
    ensures a == b
  {
    assert a == (a + x) - x;
    assert b == (b + x) - x;
  }

  lemma {:induction false} AllHeldEqual(threads: seq<Thread>, threads': seq<Thread>)
    requires |threads| == |threads'|
    requires forall t :: 0 <= t < |threads| ==> HeldBy(threads[t]) == HeldBy(threads'[t])
    ensures AllHeld(threads) == AllHeld(threads')
  {
    if threads != [] {
      AllHeldEqual(threads[..|threads| - 1], threads'[..|threads| - 1]);
    }
  }

  lemma {:induction false} AllHeldSize(threads: seq<Thread>)
    ensures |AllHeld(threads)| == SumBy(threads, Held)
  {
    if threads != [] {
      AllHeldSize(threads[..|threads| - 1]);
    }
  }

  // ---------------------------------------------------------------------------------------
  // The invariant.
  // ---------------------------------------------------------------------------------------

  ghost predicate AllPass(checks: seq<Check>) {
    forall c :: c in checks ==> c.passes
  }

  /** The counters describe the threads and the work that is not reported yet. */
  ghost predicate CountersOk(s: State) {
    && s.nIdle == SumBy(s.threads, IsAsleep)
    && s.nTotal == SumBy(s.threads, IsInside)
    && s.nTodo == |s.queue| + SumBy(s.threads, Held)
  }

  /** Every added check is queued, held in a batch, or reported, exactly once. */
  ghost predicate NothingLost(s: State) {
    multiset(s.added) == multiset(s.queue) + AllHeld(s.threads) + s.finished
  }

  ghost predicate ThreadOk(r: Thread, added: seq<Check>) {
    r.Running? ==>
      && 1 <= |r.batch| && r.done <= |r.batch|
      && (r.fOk ==> forall i :: 0 <= i < r.done ==> r.batch[i].passes)
      && (!r.fOk ==> !AllPass(added))
  }

  /** The flags never lie: true vouches for all that is reported, false for a failed check. */
  ghost predicate FlagsTruthful(s: State) {
    && (s.fAllOk ==> forall c :: c in s.finished ==> c.passes)
    && (!s.fAllOk ==> !AllPass(s.added))
    && forall t :: 0 <= t < |s.threads| ==> ThreadOk(s.threads[t], s.added)
  }

  /** The master sleeps only with an empty queue, and not through the end of the work. */
  ghost predicate MasterOk(s: State)
    requires |s.threads| > 0
  {
    s.threads[0].Asleep? ==> s.queue == [] && (s.nTodo == 0 ==> s.threads[0].notified)
  }

  const Awake: Thread -> int := (r: Thread) => if r == Asleep(false) then 0 else 1

  /** No wake-up of a worker is missed: as many are awake or notified as there is work for. */
  ghost predicate WorkersOk(s: State)
    requires |s.threads| > 0
  {
    SumBy(s.threads[1..], Awake) >= Min(|s.queue|, |s.threads| - 1)
  }

  ghost predicate RecordsOk(s: State) {
    forall i :: 0 <= i < |s.waits| ==> (s.waits[i].result <==> AllPass(s.waits[i].added))
  }

  ghost predicate Inv(s: State) {
    && |s.threads| > 0
    && CountersOk(s) && NothingLost(s) && FlagsTruthful(s) && MasterOk(s) && WorkersOk(s) && RecordsOk(s)
  }

  /** What a step of one thread does to the number of workers awake. */
  lemma SetWorker(threads: seq<Thread>, t: nat, r: Thread)
    requires t < |threads|
    ensures SumBy(threads[t := r][1..], Awake) ==
            SumBy(threads[1..], Awake) + if t == 0 then 0 else Awake(r) - Awake(threads[t])
  {
    if t == 0 {
      assert threads[t := r][1..] == threads[1..];
    } else {
      assert threads[t := r][1..] == threads[1..][t - 1 := r];
      SumByUpdate(threads[1..], Awake, t - 1, r);
    }
  }

  lemma {:induction false} AwakeMonotone(a: seq<Thread>, b: seq<Thread>)
    requires |a| == |b| && forall t :: 0 <= t < |a| ==> Awake(a[t]) <= Awake(b[t])
    ensures SumBy(a, Awake) <= SumBy(b, Awake)
  {
    if a != [] {
      AwakeMonotone(a[..|a| - 1], b[..|b| - 1]);
    }
  }

  lemma {:induction false} AllAwake(a: seq<Thread>)
    requires forall t :: 0 <= t < |a| ==> a[t] != Asleep(false)
    ensures SumBy(a, Awake) == |a|
  {
    if a != [] {
      AllAwake(a[..|a| - 1]);
    }
  }

  lemma AddedWorkers(s: State, checks: seq<Check>, chosen: nat)
    requires |s.threads| > 0 && WorkersOk(s) && Enabled(s, Step.Add(checks, chosen))
    ensures WorkersOk(Added(s, checks, chosen))
  {
    hide SumBy;
    var a := Added(s, checks, chosen);
    if |checks| == 1 && HasWaiter(s.threads) {
      SetWorker(s.threads, chosen, Asleep(true));
    } else if |checks| >= 1 {
      forall t | 0 <= t < |a.threads[1..]|
        ensures a.threads[1..][t] != Asleep(false)
      {
        assert a.threads[1..][t] == a.threads[t + 1];
      }
      AllAwake(a.threads[1..]);
    }
  }

  /** Reaching the emptiness test puts no worker to sleep. */
  lemma LockedWorkers(s: State, step: Step)
    requires |s.threads| > 0 && WorkersOk(s)
    requires Enabled(s, step) && (step.Enter? || step.Flush? || step.Wake?)
    ensures WorkersOk(Locked(s, step))
  {
    hide SumBy;
    var l := Locked(s, step);
    forall t | 0 <= t < |s.threads[1..]|
      ensures Awake(s.threads[1..][t]) <= Awake(l.threads[1..][t])
    {
      assert s.threads[1..][t] == s.threads[t + 1] && l.threads[1..][t] == l.threads[t + 1];
    }
    AwakeMonotone(s.threads[1..], l.threads[1..]);
  }

  /** A worker goes to sleep only when the queue is empty. */
  lemma DispatchWorkers(s: State, t: nat)
    requires |s.threads| > 0 && WorkersOk(s) && Counted(s) && t < |s.threads| && s.threads[t] == InLock
    ensures WorkersOk(Dispatch(s, t))
  {
    hide SumBy;
    SetWorker(s.threads, t, Dispatch(s, t).threads[t]);
    SumByNonNegative(Dispatch(s, t).threads[1..], Awake);
  }

  /** Effect on all sums of giving thread `t` the state `r`. */
  lemma SetThread(threads: seq<Thread>, t: nat, r: Thread)
    requires t < |threads|
    ensures SumBy(threads[t := r], IsAsleep) == SumBy(threads, IsAsleep) - IsAsleep(threads[t]) + IsAsleep(r)
    ensures SumBy(threads[t := r], IsInside) == SumBy(threads, IsInside) - IsInside(threads[t]) + IsInside(r)
    ensures SumBy(threads[t := r], Held) == SumBy(threads, Held) - Held(threads[t]) + Held(r)
    ensures AllHeld(threads[t := r]) + HeldBy(threads[t]) == AllHeld(threads) + HeldBy(r)
  {
    SumByUpdate(threads, IsAsleep, t, r);
    SumByUpdate(threads, IsInside, t, r);
    SumByUpdate(threads, Held, t, r);
    AllHeldUpdate(threads, t, r);
  }

  lemma InvCounted(s: State)
    requires Inv(s)
    ensures s.nTotal >= 0 && s.nIdle >= 0 && s.nTodo >= |s.queue|
  {
    SumByNonNegative(s.threads, IsAsleep);
    SumByNonNegative(s.threads, IsInside);
    SumByNonNegative(s.threads, Held);
  }

  lemma {:induction false} PoppedContents(q: seq<Check>, n: nat)
    requires n <= |q|
    ensures multiset(q[..|q| - n]) + multiset(Popped(q, n)) == multiset(q)
  {
    if n == 0 {
      assert q[..|q|] == q;
    } else {
      var q' := q[..|q| - 1];
      PoppedContents(q', n - 1);
      assert q'[..|q'| - (n - 1)] == q[..|q| - n];
      LastOut(q, n);
      Regrouped(multiset(q[..|q| - n]), multiset(Popped(q', n - 1)), multiset{q[|q| - 1]});
    }
  }

  lemma LastOut(q: seq<Check>, n: nat)
    requires 1 <= n <= |q|
    ensures multiset(q) == multiset(q[..|q| - 1]) + multiset{q[|q| - 1]}
    ensures multiset(Popped(q, n)) == multiset(Popped(q[..|q| - 1], n - 1)) + multiset{q[|q| - 1]}
  {
    assert q == q[..|q| - 1] + [q[|q| - 1]];
  }

  lemma Regrouped(a: multiset<Check>, b: multiset<Check>, c: multiset<Check>)
    ensures a + (b + c) == (a + b) + c
  {
  }

  lemma InitInv(s: State)
    requires Init(s)
    ensures Inv(s)
  {
    forall f: Thread -> int | f(Outside) == 0
      ensures SumBy(s.threads, f) == 0
    {
      SumByZero(s.threads, f);
    }
    AllHeldSize(s.threads);
    assert AllHeld(s.threads) == multiset{};
    SumByNonNegative(s.threads[1..], Awake);
  }

  lemma {:induction false} SumByZero(threads: seq<Thread>, f: Thread -> int)
    requires forall t :: 0 <= t < |threads| ==> f(threads[t]) == 0
    ensures SumBy(threads, f) == 0
  {
    if threads != [] {
      SumByZero(threads[..|threads| - 1], f);
    }
  }

  lemma ExecuteInv(s: State, t: nat, s': State)
    requires Inv(s) && Next(s, Execute(t), s')
    ensures Inv(s')
  {
    hide SumBy, AllHeld;
    var r := s.threads[t];
    var r' := Executed(r);
    SetWorker(s.threads, t, r');
    assert CountersOk(s') by {
      SetThread(s.threads, t, r');
    }
    assert NothingLost(s') by {
      AllHeldUpdate(s.threads, t, r');
      Cancel(AllHeld(s'.threads), AllHeld(s.threads), multiset(r.batch));
    }
    assert FlagsTruthful(s') by {
      assert ThreadOk(r, s.added);
      if r.fOk && !r.batch[r.done].passes {
        HeldIsAdded(s, t, r.batch[r.done]);
      }
      assert ThreadOk(r', s.added);
    }
  }

  /** A check in some thread's batch is one of those added since the last Wait. */
  lemma HeldIsAdded(s: State, t: nat, c: Check)
    requires Inv(s) && t < |s.threads| && s.threads[t].Running? && c in s.threads[t].batch
    ensures c in s.added
  {
    HeldIsHeld(s.threads, t, c);
    assert c in multiset(s.added);
  }

  lemma {:induction false} HeldIsHeld(threads: seq<Thread>, t: nat, c: Check)
    requires t < |threads| && c in HeldBy(threads[t])
    ensures c in AllHeld(threads)
  {
    if t < |threads| - 1 {
      HeldIsHeld(threads[..|threads| - 1], t, c);
    }
  }

  lemma AddInv(s: State, checks: seq<Check>, chosen: nat, s': State)
    requires Inv(s) && Next(s, Step.Add(checks, chosen), s')
    ensures Inv(s')
  {
    hide SumBy, AllHeld;
    AddedWorkers(s, checks, chosen);
    assert SameWork(s.threads, s'.threads);
    assert CountersOk(s') by {
      SameWorkSums(s.threads, s'.threads);
    }
    assert NothingLost(s') by {
      SameWorkSums(s.threads, s'.threads);
      assert multiset(s'.added) == multiset(s.added) + multiset(checks);
      assert multiset(s'.queue) == multiset(s.queue) + multiset(checks);
      Regroup(multiset(s.queue), AllHeld(s.threads), multiset(checks), s.finished);
    }
    AddedFails(s.added, checks);
    forall t | 0 <= t < |s'.threads|
      ensures ThreadOk(s'.threads[t], s'.added)
    {
      assert ThreadOk(s.threads[t], s.added);
    }
  }

  lemma AddedFails(added: seq<Check>, checks: seq<Check>)
    ensures !AllPass(added) ==> !AllPass(added + checks)
  {
    if AllPass(added + checks) {
      forall c | c in added ensures c.passes { assert c in added + checks; }
    }
  }

  /** The thread states differ in pending notifications only. */
  ghost predicate SameWork(threads: seq<Thread>, threads': seq<Thread>) {
    && |threads| == |threads'|
    && forall t :: 0 <= t < |threads| ==>
         threads[t] == threads'[t] || (threads[t].Asleep? && threads'[t].Asleep?)
  }

  lemma SameWorkSums(threads: seq<Thread>, threads': seq<Thread>)
    requires SameWork(threads, threads')
    ensures SumBy(threads, IsAsleep) == SumBy(threads', IsAsleep)
    ensures SumBy(threads, IsInside) == SumBy(threads', IsInside)
    ensures SumBy(threads, Held) == SumBy(threads', Held)
    ensures AllHeld(threads) == AllHeld(threads')
  {
    SumByEqual(threads, threads', IsAsleep);
    SumByEqual(threads, threads', IsInside);
    SumByEqual(threads, threads', Held);
    AllHeldEqual(threads, threads');
  }

  /** Everything up to the emptiness test keeps the invariant. */
  lemma EnterLockedInv(s: State, t: nat)
    requires Inv(s) && Enabled(s, Enter(t))
    ensures Inv(Locked(s, Enter(t)))
  {
    hide SumBy, AllHeld, AllPass, WorkersOk;
    var l := Locked(s, Enter(t));
    LockedWorkers(s, Enter(t));
    assert CountersOk(l) && NothingLost(l) by {
      SetThread(s.threads, t, InLock);
      Cancel(AllHeld(l.threads), AllHeld(s.threads), multiset{});
    }
  }

  lemma WakeLockedInv(s: State, t: nat)
    requires Inv(s) && Enabled(s, Wake(t))
    ensures Inv(Locked(s, Wake(t)))
  {
    hide SumBy, AllHeld;
    var l := Locked(s, Wake(t));
    LockedWorkers(s, Wake(t));
    assert CountersOk(l) && NothingLost(l) by {
      SetThread(s.threads, t, InLock);
      Cancel(AllHeld(l.threads), AllHeld(s.threads), multiset{});
    }
  }

  lemma FlushLockedInv(s: State, t: nat)
    requires Inv(s) && Enabled(s, Flush(t))
    ensures Inv(Locked(s, Flush(t)))
  {
    hide CountersOk, NothingLost, FlagsTruthful, WorkersOk, SumBy, AllHeld;
    LockedWorkers(s, Flush(t));
    FlushCounters(s, t);
    FlushNothingLost(s, t);
    FlushFlags(s, t);
  }

  lemma FlushCounters(s: State, t: nat)
    requires Inv(s) && Enabled(s, Flush(t))
    ensures CountersOk(Locked(s, Flush(t)))
  {
    hide NothingLost, RecordsOk, MasterOk, SumBy, AllHeld;
    SetThread(s.threads, t, InLock);
    SameWorkSums(s.threads[t := InLock], Locked(s, Flush(t)).threads);
  }

  lemma FlushNothingLost(s: State, t: nat)
    requires Inv(s) && Enabled(s, Flush(t))
    ensures NothingLost(Locked(s, Flush(t)))
  {
    var b := multiset(s.threads[t].batch);
    var l := Locked(s, Flush(t));
    var threads := s.threads[t := InLock];
    assert AllHeld(l.threads) == AllHeld(threads) by {
      SameWorkSums(threads, l.threads);
    }
    assert AllHeld(threads) + b == AllHeld(s.threads) by {
      AllHeldUpdate(s.threads, t, InLock);
    }
    assert multiset(l.added) == multiset(s.queue) + (AllHeld(threads) + b) + s.finished;
    Regroup(multiset(s.queue), AllHeld(threads), b, s.finished);
  }

  lemma FlushFlags(s: State, t: nat)
    requires Inv(s) && Enabled(s, Flush(t))
    ensures FlagsTruthful(Locked(s, Flush(t)))
  {
    var r := s.threads[t];
    var l := Locked(s, Flush(t));
    assert ThreadOk(r, s.added);
    if l.fAllOk {
      BatchPasses(r);
    }
    ThreadsOkAfter(s, l);
  }

  /** Threads that keep their batches, or give them up, stay in order. */
  lemma ThreadsOkAfter(s: State, l: State)
    requires FlagsTruthful(s) && |l.threads| == |s.threads| && l.added == s.added
    requires forall u :: 0 <= u < |s.threads| ==> l.threads[u].Running? ==> l.threads[u] == s.threads[u]
    ensures forall u :: 0 <= u < |l.threads| ==> ThreadOk(l.threads[u], l.added)
  {
    forall u | 0 <= u < |l.threads|
      ensures ThreadOk(l.threads[u], l.added)
    {
      assert ThreadOk(s.threads[u], s.added);
    }
  }

  lemma Regroup(q: multiset<Check>, held: multiset<Check>, b: multiset<Check>, f: multiset<Check>)
    ensures q + (held + b) + f == q + held + (f + b)
    ensures (q + b) + held + f == q + (held + b) + f
  {
  }

  /** A batch that ended with its flag still true has only passing checks. */
  lemma BatchPasses(r: Thread)
    requires r.Running? && r.fOk && r.done == |r.batch|
    requires forall i :: 0 <= i < r.done ==> r.batch[i].passes
    ensures forall c :: c in multiset(r.batch) ==> c.passes
  {
    forall c | c in multiset(r.batch)
      ensures c.passes
    {
      assert c in r.batch;
    }
  }

  /** From the emptiness test on: going to sleep keeps the invariant, */
  lemma SleepInv(s: State, t: nat)
    requires Inv(s) && Counted(s) && t < |s.threads| && s.threads[t] == InLock
    requires s.queue == [] && !((t == 0 || s.fQuit) && s.nTodo == 0)
    ensures Inv(Dispatch(s, t))
  {
    hide WorkersOk, SumBy, AllHeld, AllPass;
    DispatchWorkers(s, t);
    SetThread(s.threads, t, Asleep(false));
    Cancel(AllHeld(s.threads[t := Asleep(false)]), AllHeld(s.threads), multiset{});
    ThreadsOkAfter(s, Dispatch(s, t));
  }

  /** and so does taking a batch, */
  lemma TakeInv(s: State, t: nat)
    requires Inv(s) && Counted(s) && t < |s.threads| && s.threads[t] == InLock
    requires s.queue != []
    ensures Inv(Dispatch(s, t))
  {
    hide CountersOk, NothingLost, FlagsTruthful, WorkersOk;
    DispatchWorkers(s, t);
    TakeCounters(s, t);
    TakeNothingLost(s, t, BatchSize(s));
    TakeFlags(s, t);
  }

  lemma TakeCounters(s: State, t: nat)
    requires CountersOk(s) && Counted(s) && t < |s.threads| && s.threads[t] == InLock && s.queue != []
    ensures CountersOk(Dispatch(s, t))
  {
    hide SumBy, AllHeld;
    SetThread(s.threads, t, Dispatch(s, t).threads[t]);
  }

  lemma TakeFlags(s: State, t: nat)
    requires FlagsTruthful(s) && Counted(s) && t < |s.threads| && s.threads[t] == InLock && s.queue != []
    ensures FlagsTruthful(Dispatch(s, t))
  {
    hide AllPass;
    var d := Dispatch(s, t);
    forall u | 0 <= u < |d.threads|
      ensures ThreadOk(d.threads[u], d.added)
    {
      assert u != t ==> ThreadOk(s.threads[u], s.added);
    }
  }

  lemma TakeNothingLost(s: State, t: nat, n: nat)
    requires NothingLost(s) && t < |s.threads| && s.threads[t] == InLock && n <= |s.queue|
    ensures NothingLost(s.(queue := s.queue[..|s.queue| - n],
                           threads := s.threads[t := Running(Popped(s.queue, n), 0, s.fAllOk)]))
  {
    hide AllHeld, Popped;
    var r := Running(Popped(s.queue, n), 0, s.fAllOk);
    AllHeldUpdate(s.threads, t, r);
    PoppedContents(s.queue, n);
    Moved(multiset(s.added), multiset(s.queue), multiset(s.queue[..|s.queue| - n]),
          AllHeld(s.threads), AllHeld(s.threads[t := r]), multiset(r.batch), s.finished);
  }

  /** A batch moves from the queue to the threads. */
  lemma Moved(all: multiset<Check>, q: multiset<Check>, q': multiset<Check>,
              held: multiset<Check>, held': multiset<Check>, b: multiset<Check>, f: multiset<Check>)
    requires all == q + held + f && q' + b == q && held' + multiset{} == held + b
    ensures all == q' + held' + f
  {
    assert held' == held + b;
    Regroup(q', held, b, f);
  }

  /** and so does returning: the answer of Wait is right, and a new round starts clean. */
  lemma ReturnInv(s: State, t: nat)
    requires Inv(s) && Counted(s) && t < |s.threads| && s.threads[t] == InLock
    requires s.queue == [] && (t == 0 || s.fQuit) && s.nTodo == 0
    ensures Inv(Dispatch(s, t))
  {
    hide CountersOk, NothingLost, FlagsTruthful, WorkersOk, AllPass;
    DispatchWorkers(s, t);
    AllDone(s);
    ReturnCounters(s, t);
    ReturnNothingLost(s, t);
    ReturnFlags(s, t);
  }

  lemma ReturnCounters(s: State, t: nat)
    requires CountersOk(s) && Counted(s) && t < |s.threads| && s.threads[t] == InLock
    requires s.queue == [] && (t == 0 || s.fQuit) && s.nTodo == 0
    ensures CountersOk(Dispatch(s, t))
  {
    hide SumBy, AllHeld;
    SetThread(s.threads, t, Outside);
  }

  lemma ReturnNothingLost(s: State, t: nat)
    requires NothingLost(s) && Counted(s) && t < |s.threads| && s.threads[t] == InLock
    requires s.queue == [] && (t == 0 || s.fQuit) && s.nTodo == 0 && AllHeld(s.threads) == multiset{}
    ensures NothingLost(Dispatch(s, t))
  {
    hide SumBy, AllHeld;
    SetThread(s.threads, t, Outside);
    Cancel(AllHeld(s.threads[t := Outside]), AllHeld(s.threads), multiset{});
  }

  lemma ReturnFlags(s: State, t: nat)
    requires FlagsTruthful(s) && Counted(s) && t < |s.threads| && s.threads[t] == InLock
    requires s.queue == [] && (t == 0 || s.fQuit) && s.nTodo == 0
    requires forall u :: 0 <= u < |s.threads| ==> !s.threads[u].Running?
    ensures FlagsTruthful(Dispatch(s, t))
  {
    hide AllPass;
    var d := Dispatch(s, t);
    forall u | 0 <= u < |d.threads|
      ensures ThreadOk(d.threads[u], d.added)
    {
      assert !s.threads[u].Running?;
    }
  }

  /** With nothing left to do, no thread holds a batch and the flag is the verdict on all that was added. */
  lemma AllDone(s: State)
    requires Inv(s) && s.nTodo == 0
    ensures s.queue == [] && AllHeld(s.threads) == multiset{}
    ensures forall u :: 0 <= u < |s.threads| ==> !s.threads[u].Running?
    ensures s.fAllOk <==> AllPass(s.added)
  {
    InvCounted(s);
    AllHeldSize(s.threads);
    forall u | 0 <= u < |s.threads|
      ensures !s.threads[u].Running?
    {
      SumByBound(s.threads, Held, u);
      assert ThreadOk(s.threads[u], s.added);
    }
    assert multiset(s.added) == s.finished;
    if s.fAllOk {
      forall c | c in s.added
        ensures c.passes
      {
        assert c in multiset(s.added);
      }
    }
  }

  lemma DispatchInv(s: State, t: nat)
    requires Inv(s) && Counted(s) && t < |s.threads| && s.threads[t] == InLock
    ensures Inv(Dispatch(s, t))
  {
    if s.queue != [] {
      TakeInv(s, t);
    } else if (t == 0 || s.fQuit) && s.nTodo == 0 {
      ReturnInv(s, t);
    } else {
      SleepInv(s, t);
    }
  }

  lemma LockedInv(s: State, step: Step)
    requires Inv(s) && Enabled(s, step) && (step.Enter? || step.Flush? || step.Wake?)
    ensures Inv(Locked(s, step)) && Counted(Locked(s, step))
  {
    match step {
      case Enter(t) => EnterLockedInv(s, t);
      case Wake(t) => WakeLockedInv(s, t);
      case Flush(t) => FlushLockedInv(s, t);
    }
    InvCounted(Locked(s, step));
  }

  /** Every step keeps the invariant, */
  lemma NextInv(s: State, step: Step, s': State)
    requires Inv(s) && Next(s, step, s')
    ensures Inv(s')
  {
    hide Inv, Dispatch;
    match step {
      case Execute(t) => ExecuteInv(s, t, s');
      case Add(checks, chosen) => AddInv(s, checks, chosen, s');
      case _ =>
        LockedInv(s, step);
        DispatchInv(Locked(s, step), step.t);
    }
  }

  /** and every enabled step can be taken. */
  lemma NextExists(s: State, step: Step)
    requires Inv(s) && Enabled(s, step)
    ensures exists s' :: Next(s, step, s')
  {
    match step {
      case Execute(t) => assert Next(s, step, s.(threads := s.threads[t := Executed(s.threads[t])]));
      case Add(checks, chosen) => assert Next(s, step, Added(s, checks, chosen));
      case _ =>
        LockedInv(s, step);
        assert Next(s, step, Dispatch(Locked(s, step), step.t));
    }
  }

  // ---------------------------------------------------------------------------------------
  // Whole runs.
  // ---------------------------------------------------------------------------------------

  ghost predicate IsRun(states: seq<State>, steps: seq<Step>) {
    && |states| == |steps| + 1
    && forall i :: 0 <= i < |steps| ==> Next(states[i], steps[i], states[i + 1])
  }

  lemma {:induction false} RunInv(states: seq<State>, steps: seq<Step>, i: nat)
    requires IsRun(states, steps) && Init(states[0]) && i < |states|
    ensures Inv(states[i])
  {
    if i == 0 {
      InitInv(states[0]);
    } else {
      RunInv(states, steps, i - 1);
      assert Next(states[i - 1], steps[i - 1], states[i]);
      NextInv(states[i - 1], steps[i - 1], states[i]);
    }
  }

  /** The master's call of Wait ends with this step: it leaves Loop. */
  predicate WaitEnds(step: Step, s': State) {
    (step.Enter? || step.Flush? || step.Wake?) && step.t == 0 && |s'.threads| > 0 && s'.threads[0].Outside?
  }

  /** The arguments of the Add steps since the last Wait ended, one after the other. */
  ghost function GivenSince(states: seq<State>, steps: seq<Step>, i: nat): seq<Check>
    requires i <= |steps| < |states|
  {
    if i == 0 || WaitEnds(steps[i - 1], states[i]) then []
    else GivenSince(states, steps, i - 1) + if steps[i - 1].Add? then steps[i - 1].checks else []
  }

  /** The same for every Wait that has ended. */
  ghost function Rounds(states: seq<State>, steps: seq<Step>, i: nat): seq<seq<Check>>
    requires i <= |steps| < |states|
  {
    if i == 0 then []
    else Rounds(states, steps, i - 1)
         + if WaitEnds(steps[i - 1], states[i]) then [GivenSince(states, steps, i - 1)] else []
  }

  /** One step adds what it was given to the history, or closes it with one record. */
  lemma StepHistory(s: State, step: Step, s': State)
    requires Next(s, step, s') && |s.threads| > 0
    ensures |s'.threads| == |s.threads|
    ensures if WaitEnds(step, s') then
              s'.added == [] && |s'.waits| == |s.waits| + 1 && s'.waits[..|s.waits|] == s.waits
              && s'.waits[|s.waits|].added == s.added
            else s'.waits == s.waits && s'.added == s.added + if step.Add? then step.checks else []
  {
    hide Dispatch, Locked;
    if step.Enter? || step.Flush? || step.Wake? {
      LockedHistory(s, step);
      DispatchHistory(Locked(s, step), step.t);
    }
  }

  lemma LockedHistory(s: State, step: Step)
    requires Enabled(s, step) && (step.Enter? || step.Flush? || step.Wake?)
    ensures var l := Locked(s, step);
            l.added == s.added && l.waits == s.waits && |l.threads| == |s.threads|
  {
  }

  lemma DispatchHistory(s: State, t: nat)
    requires Counted(s) && t < |s.threads|
    ensures var d := Dispatch(s, t);
            && |d.threads| == |s.threads|
            && if t == 0 && d.threads[0].Outside? then
                 d.added == [] && |d.waits| == |s.waits| + 1 && d.waits[..|s.waits|] == s.waits
                 && d.waits[|s.waits|].added == s.added
               else d.waits == s.waits && d.added == s.added
  {
  }

  ghost predicate Recorded(s: State, given: seq<Check>, rounds: seq<seq<Check>>) {
    && s.added == given && |s.waits| == |rounds|
    && forall k :: 0 <= k < |rounds| ==> s.waits[k].added == rounds[k]
  }

  /** The history is what the Add steps of the run were given, with one record for every Wait that ended. */
  lemma {:induction false} RunHistory(states: seq<State>, steps: seq<Step>, i: nat)
    requires IsRun(states, steps) && Init(states[0]) && i < |states|
    ensures |states[i].threads| == |states[0].threads|
    ensures Recorded(states[i], GivenSince(states, steps, i), Rounds(states, steps, i))
  {
    hide WaitEnds, Next;
    if i > 0 {
      RunHistory(states, steps, i - 1);
      assert Next(states[i - 1], steps[i - 1], states[i]);
      StepHistory(states[i - 1], steps[i - 1], states[i]);
      if WaitEnds(steps[i - 1], states[i]) {
        ClosedRound(states[i - 1], states[i], GivenSince(states, steps, i - 1), Rounds(states, steps, i - 1));
      }
    }
  }

  lemma ClosedRound(s: State, s': State, given: seq<Check>, rounds: seq<seq<Check>>)
    requires Recorded(s, given, rounds) && s'.added == [] && |s'.waits| == |s.waits| + 1
    requires s'.waits[..|s.waits|] == s.waits && s'.waits[|s.waits|].added == s.added
    ensures Recorded(s', [], rounds + [given])
  {
    forall k | 0 <= k < |rounds| + 1
      ensures s'.waits[k].added == (rounds + [given])[k]
    {
      if k < |rounds| {
        assert s'.waits[k] == s'.waits[..|s.waits|][k];
      }
    }
  }

  /** What Add does to the queue and to the threads: every check is queued, and only workers are notified. */
  lemma AddEffect(s: State, checks: seq<Check>, chosen: nat, s': State)
    requires Next(s, Step.Add(checks, chosen), s')
    ensures s'.queue == s.queue + checks && s'.nTodo == s.nTodo + |checks|
    ensures |s'.threads| == |s.threads| > 0 && s'.threads[0] == s.threads[0]
    ensures |checks| > 1 ==> !HasWaiter(s'.threads)
    ensures |checks| == 1 && HasWaiter(s.threads) ==>
              s.threads[chosen] == Asleep(false) && s'.threads == s.threads[chosen := Asleep(true)]
    ensures |checks| == 0 || (|checks| == 1 && !HasWaiter(s.threads)) ==> s'.threads == s.threads
  {
  }

  /**
   In every interleaving: nTodo is the queued plus the unreported work, every Wait so far has
   returned true exactly if all checks given to Add for it pass, the master does not sleep without a
   pending notification once the work is done, and as many workers are awake or notified as there
   are queued checks, or all of them; so if there is a worker, queued work finds one.
   */
  lemma EveryRunIsSafe(states: seq<State>, steps: seq<Step>, i: nat)
    requires IsRun(states, steps) && Init(states[0]) && i < |states|
    ensures states[i].nTodo == |states[i].queue| + SumBy(states[i].threads, Held)
    ensures |states[i].waits| == |Rounds(states, steps, i)|
    ensures forall k :: 0 <= k < |states[i].waits| ==>
              (states[i].waits[k].result <==> AllPass(Rounds(states, steps, i)[k]))
    ensures |states[i].threads| > 0
    ensures states[i].threads[0] == Asleep(false) ==> states[i].nTodo > 0
    ensures SumBy(states[i].threads[1..], Awake) >= Min(|states[i].queue|, |states[i].threads| - 1)
    ensures states[i].queue != [] && |states[i].threads| > 1 ==>
              exists t :: 1 <= t < |states[i].threads| && states[i].threads[t] != Asleep(false)
  {
    hide Rounds, GivenSince, AllPass;
    RunInv(states, steps, i);
    RunHistory(states, steps, i);
    InvCounted(states[i]);
    var s := states[i];
    if s.queue != [] && |s.threads| > 1 {
      var t := SomeoneHolds(s.threads[1..], Awake);
      assert s.threads[t + 1] == s.threads[1..][t];
    }
  }

  // ---------------------------------------------------------------------------------------
  // Wait returns.
  // ---------------------------------------------------------------------------------------

  const Weight: Thread -> int := (r: Thread) =>
    match r
    case Outside => 3
    case InLock => 0
    case Asleep(notified) => if notified then 1 else 0
    case Running(batch, done, _) => if done <= |batch| then 3 * |batch| - done else 0

  function Measure(s: State): int { 4 * |s.queue| + SumBy(s.threads, Weight) }

  predicate Spurious(s: State, step: Step) {
    step.Wake? && step.t < |s.threads| && s.threads[step.t] == Asleep(false)
  }

  predicate InWait(s: State) { |s.threads| > 0 && !s.threads[0].Outside? }

  predicate Settled(s: State) { !s.fQuit && forall t :: 0 <= t < |s.threads| ==> !s.threads[t].InLock? }

  lemma {:induction false} RunSettled(states: seq<State>, steps: seq<Step>, i: nat)
    requires IsRun(states, steps) && Settled(states[0]) && i < |states|
    ensures Settled(states[i])
  {
    if i > 0 {
      RunSettled(states, steps, i - 1);
      assert Next(states[i - 1], steps[i - 1], states[i]);
      NextSettled(states[i - 1], steps[i - 1], states[i]);
    }
  }

  lemma NextSettled(s: State, step: Step, s': State)
    requires Settled(s) && Next(s, step, s')
    ensures Settled(s')
  {
    hide Dispatch;
    if step.Enter? || step.Flush? || step.Wake? {
      DispatchOthers(Locked(s, step), step.t);
    }
  }

  /** The section after the emptiness test changes the state of its own thread only. */
  lemma DispatchOthers(s: State, t: nat)
    requires Counted(s) && t < |s.threads|
    ensures var d := Dispatch(s, t);
            && d.fQuit == s.fQuit && |d.threads| == |s.threads| && !d.threads[t].InLock?
            && forall u :: 0 <= u < |s.threads| && u != t ==> d.threads[u] == s.threads[u]
  {
  }

  /** Looking for work costs at least as much as it gains, unless the thread returns. */
  lemma DispatchMeasure(s: State, t: nat)
    requires Inv(s) && Counted(s) && t < |s.threads| && s.threads[t] == InLock
    requires !Dispatch(s, t).threads[t].Outside?
    ensures Measure(Dispatch(s, t)) <= Measure(s)
  {
    hide NothingLost, FlagsTruthful, RecordsOk, MasterOk, CountersOk, SumBy;
    SumByUpdate(s.threads, Weight, t, Dispatch(s, t).threads[t]);
  }

  /** While the master is in Wait, every step brings the end closer; a spurious wakeup takes nothing back. */
  lemma StepProgress(s: State, step: Step, s': State)
    requires Inv(s) && Settled(s) && Next(s, step, s')
    requires InWait(s) && InWait(s')
    ensures 0 <= Measure(s') <= Measure(s)
    ensures !Spurious(s, step) ==> Measure(s') < Measure(s)
  {
    hide SumBy, Inv;
    SumByNonNegative(s'.threads, Weight);
    if step.Execute? {
      SumByUpdate(s.threads, Weight, step.t, Executed(s.threads[step.t]));
    } else if step.Enter? || step.Flush? || step.Wake? {
      LockedMeasure(s, step);
      LockedInv(s, step);
      DispatchMeasure(Locked(s, step), step.t);
    }
  }

  lemma LockedMeasure(s: State, step: Step)
    requires Inv(s) && Enabled(s, step) && (step.Enter? || step.Flush? || step.Wake?)
    ensures Measure(Locked(s, step)) <= Measure(s)
    ensures !Spurious(s, step) ==> Measure(Locked(s, step)) < Measure(s)
  {
    var threads := s.threads[step.t := InLock];
    SumByUpdate(s.threads, Weight, step.t, InLock);
    if step.Flush? {
      assert ThreadOk(s.threads[step.t], s.added);
      SumByUpdate(threads, Weight, 0, Asleep(true));
    }
  }

  /** While the master is in Wait, some step other than a spurious wakeup is enabled. */
  lemma NoDeadlock(s: State)
    requires Inv(s) && Settled(s) && InWait(s)
    ensures exists step :: Enabled(s, step) && !Spurious(s, step)
  {
    var t := 0;
    InvCounted(s);
    if s.threads[0] == Asleep(false) {
      t := SomeoneHolds(s.threads, Held);
    }
    assert ThreadOk(s.threads[t], s.added);
    if s.threads[t].Asleep? {
      assert Enabled(s, Wake(t)) && !Spurious(s, Wake(t));
    } else if s.threads[t].done < |s.threads[t].batch| {
      assert Enabled(s, Execute(t)) && !Spurious(s, Execute(t));
    } else {
      assert Enabled(s, Flush(t)) && !Spurious(s, Flush(t));
    }
  }

  lemma {:induction false} SomeoneHolds(threads: seq<Thread>, f: Thread -> int) returns (t: nat)
    requires SumBy(threads, f) > 0
    ensures t < |threads| && f(threads[t]) > 0
  {
    t := |threads| - 1;
    if f(threads[t]) <= 0 {
      t := SomeoneHolds(threads[..t], f);
    }
  }

  /** The number of steps that are not spurious wakeups. */
  function Productive(states: seq<State>, steps: seq<Step>): nat
    requires |states| == |steps| + 1
  {
    if steps == [] then 0
    else Productive(states[1..], steps[1..]) + if Spurious(states[0], steps[0]) then 0 else 1
  }

  /**
   While a call of Wait lasts, only a bounded number of steps can be taken besides spurious wakeups,
   whoever takes them and however many of those there are in between.
   */
  lemma {:induction false} WaitReturns(states: seq<State>, steps: seq<Step>)
    requires IsRun(states, steps) && Inv(states[0]) && Settled(states[0])
    requires forall i :: 0 <= i < |states| ==> InWait(states[i])
    ensures Productive(states, steps) <= Measure(states[0])
    decreases |steps|
  {
    SumByNonNegative(states[0].threads, Weight);
    if |steps| > 0 {
      assert Next(states[0], steps[0], states[1]);
      StepProgress(states[0], steps[0], states[1]);
      NextInv(states[0], steps[0], states[1]);
      RunSettled(states, steps, 1);
      WaitReturns(states[1..], steps[1..]);
    }
  }
}
