/** `Ring::post`, `run_external_tasks` and the eventfd part of `run_one` (driver.cpp) as a state
    machine: any number of posting threads, the ring thread, and the kernel, step by step. */
module Wakeup {
  import opened Options

  type Task = nat
  type Tid = nat

  // A thread inside `post`; a thread outside it is not in the map.
  datatype PosterPc =
    | Locked(task: Task)    // holds the mutex, has not pushed yet
    | PushedLocked          // has pushed, still holds the mutex
    | Unlocked              // before notified_.exchange(true)
    | MustWrite             // found the flag clear, before the eventfd write

  datatype RingPc =
    | Waiting               // in submit_and_wait, or handling other completions
    | Woken                 // has seen the eventfd completion
    | Cleared               // notified_.store(false) done
    | RingLocked            // holds the mutex, has not swapped yet
    | Swapped(taken: seq<Task>)   // has swapped, still holds the mutex
    | Running(taken: seq<Task>)   // running the tasks it took

  // The read of the eventfd on its way through the kernel.
  datatype Read = NotArmed | Prepared | Submitted | Completed

  datatype Holder = ByPoster(t: Tid) | ByRing

  datatype State = State(
    posters: map<Tid, PosterPc>,
    lock: Option<Holder>,
    queue: seq<Task>,
    notified: bool,
    counter: nat,
    read: Read,
    ring: RingPc,
    pushed: seq<Task>,      // history: everything pushed, in order
    ran: seq<Task>)         // history: everything the ring has run, in order

  const INIT: State := State(map[], None, [], false, 0, Prepared, Waiting, [], [])

  datatype Step =
    | Acquire(t: Tid, task: Task) | Push(t: Tid) | Release(t: Tid) | Exchange(t: Tid) | Write(t: Tid)
    | Submit | Complete | CompleteSpuriously
    | Reap | Clear | RingAcquire | Swap | RingRelease | RunTask | Rearm

  predicate At(s: State, t: Tid, pc: PosterPc) { t in s.posters && s.posters[t] == pc }

  predicate Enabled(s: State, step: Step) {
    match step
    case Acquire(t, _) => t !in s.posters && s.lock == None
    case Push(t) => t in s.posters && s.posters[t].Locked?
    case Release(t) => At(s, t, PushedLocked)
    case Exchange(t) => At(s, t, Unlocked)
    case Write(t) => At(s, t, MustWrite)
    case Submit => s.read == Prepared
    case Complete => s.read == Submitted && s.counter > 0
    case CompleteSpuriously => s.read == Submitted
    case Reap => s.ring == Waiting && s.read == Completed
    case Clear => s.ring == Woken
    case RingAcquire => s.ring == Cleared && s.lock == None
    case Swap => s.ring == RingLocked
    case RingRelease => s.ring.Swapped?
    case RunTask => s.ring.Running? && s.ring.taken != []
    case Rearm => s.ring == Running([])
  }

  function Do(s: State, step: Step): State
    requires Enabled(s, step)
  {
    match step
    case Acquire(t, task) => s.(posters := s.posters[t := Locked(task)], lock := Some(ByPoster(t)))
    case Push(t) =>
      var task := s.posters[t].task;
      s.(posters := s.posters[t := PushedLocked], queue := s.queue + [task], pushed := s.pushed + [task])
    case Release(t) => s.(posters := s.posters[t := Unlocked], lock := None)
    case Exchange(t) =>
      s.(posters := if s.notified then s.posters - {t} else s.posters[t := MustWrite], notified := true)
    case Write(t) => s.(posters := s.posters - {t}, counter := s.counter + 1)
    case Submit => s.(read := Submitted)
    case Complete => s.(read := Completed, counter := 0)
    case CompleteSpuriously => s.(read := Completed)
    case Reap => s.(ring := Woken, read := NotArmed)
    case Clear => s.(ring := Cleared, notified := false)
    case RingAcquire => s.(ring := RingLocked, lock := Some(ByRing))
    case Swap => s.(ring := Swapped(s.queue), queue := [])
    case RingRelease => s.(ring := Running(s.ring.taken), lock := None)
    case RunTask => s.(ring := Running(s.ring.taken[1..]), ran := s.ran + [s.ring.taken[0]])
    case Rearm => s.(ring := Waiting, read := Prepared)
  }

  predicate ValidRun(s: State, steps: seq<Step>)
    decreases |steps|
  {
    steps == [] || (Enabled(s, steps[0]) && ValidRun(Do(s, steps[0]), steps[1..]))
  }

  function After(s: State, steps: seq<Step>): State
    requires ValidRun(s, steps)
    decreases |steps|
  {
    if steps == [] then s else After(Do(s, steps[0]), steps[1..])
  }

  // ---------- what every step keeps ----------

  // The tasks the ring has taken off the queue and not run yet.
  function Taken(s: State): seq<Task> {
    if s.ring.Swapped? || s.ring.Running? then s.ring.taken else []
  }

  predicate HoldsLock(s: State, t: Tid) {
    t in s.posters && (s.posters[t].Locked? || s.posters[t].PushedLocked?)
  }

  // A wake-up is on its way to the ring.
  ghost predicate Signalled(s: State) {
    || (exists t :: At(s, t, MustWrite))
    || s.counter > 0 || s.read == Completed || s.ring == Woken
  }

  // Someone who has pushed has not tried the flag yet.
  ghost predicate PostPending(s: State) {
    exists t :: At(s, t, PushedLocked) || At(s, t, Unlocked)
  }

  ghost predicate LockOk(s: State) {
    && (forall t :: HoldsLock(s, t) ==> s.lock == Some(ByPoster(t)))
    && (s.lock.Some? && s.lock.value.ByPoster? ==> HoldsLock(s, s.lock.value.t))
    && (s.ring == RingLocked || s.ring.Swapped? <==> s.lock == Some(ByRing))
  }

  // What was pushed has been run, been taken or is queued, in this order.
  ghost predicate HistoryOk(s: State) { s.pushed == s.ran + Taken(s) + s.queue }

  ghost predicate Inv(s: State) {
    && LockOk(s)
    && (s.notified ==> Signalled(s))
    && (s.queue != [] ==> s.notified || PostPending(s) || s.ring == Cleared || s.ring == RingLocked)
    && (s.ring == Waiting <==> s.read != NotArmed)
    && HistoryOk(s)
  }

  lemma StepKeepsLock(s: State, step: Step)
    requires Inv(s) && Enabled(s, step)
    ensures LockOk(Do(s, step))
  {
    var s' := Do(s, step);
    if step.Push? || step.Release? {
      assert HoldsLock(s, step.t);
    }
    forall t
      ensures HoldsLock(s', t) ==> s'.lock == Some(ByPoster(t))
    {
      assert HoldsLock(s, t) ==> s.lock == Some(ByPoster(t));
    }
  }

  lemma StepKeepsSignal(s: State, step: Step)
    requires Inv(s) && Enabled(s, step)
    ensures Do(s, step).notified ==> Signalled(Do(s, step))
  {
    var s' := Do(s, step);
    if s'.notified && !step.Write? && !step.Exchange? {
      if t :| At(s, t, MustWrite) { assert s'.posters[t] == s.posters[t]; assert At(s', t, MustWrite); }
    }
    if step.Exchange? {
      if s.notified {
        if t :| At(s, t, MustWrite) { assert At(s', t, MustWrite); }
      } else {
        assert At(s', step.t, MustWrite);
      }
    }
  }

  lemma StepKeepsQueued(s: State, step: Step)
    requires Inv(s) && Enabled(s, step)
    ensures var s' := Do(s, step);
            s'.queue != [] ==> s'.notified || PostPending(s') || s'.ring == Cleared || s'.ring == RingLocked
  {
    var s' := Do(s, step);
    if step.Push? {
      assert At(s', step.t, PushedLocked);
    } else if step.Release? {
      assert At(s', step.t, Unlocked);
    } else if s'.queue != [] && !step.Exchange? {
      if t :| At(s, t, PushedLocked) || At(s, t, Unlocked) {
        assert At(s', t, s.posters[t]);
      }
    }
  }

  lemma PushKeepsHistory(s: State, t: Tid)
    requires HistoryOk(s) && Enabled(s, Push(t))
    ensures HistoryOk(Do(s, Push(t)))
  {
    var before, task := s.ran + Taken(s), s.posters[t].task;
    assert (before + s.queue) + [task] == before + (s.queue + [task]);
  }

  lemma SwapKeepsHistory(s: State)
    requires HistoryOk(s) && Enabled(s, Swap)
    ensures HistoryOk(Do(s, Swap))
  {
    assert s.ran + [] + s.queue == s.ran + s.queue + [];
  }

  lemma RunTaskKeepsHistory(s: State)
    requires HistoryOk(s) && Enabled(s, RunTask)
    ensures HistoryOk(Do(s, RunTask))
  {
    var taken := s.ring.taken;
    assert s.ran + taken == (s.ran + [taken[0]]) + taken[1..];
  }

  lemma StepKeepsHistory(s: State, step: Step)
    requires HistoryOk(s) && Enabled(s, step)
    ensures HistoryOk(Do(s, step))
  {
    if step.Push? {
      PushKeepsHistory(s, step.t);
    } else if step.Swap? {
      SwapKeepsHistory(s);
    } else if step.RunTask? {
      RunTaskKeepsHistory(s);
    } else {
      var s' := Do(s, step);
      assert s'.pushed == s.pushed && s'.ran == s.ran && Taken(s') == Taken(s) && s'.queue == s.queue;
    }
  }

  lemma StepKeepsInv(s: State, step: Step)
    requires Inv(s) && Enabled(s, step)
    ensures Inv(Do(s, step))
  {
    StepKeepsLock(s, step);
    StepKeepsSignal(s, step);
    StepKeepsQueued(s, step);
    StepKeepsHistory(s, step);
  }

  lemma {:induction false} RunKeepsInv(s: State, steps: seq<Step>)
    requires Inv(s) && ValidRun(s, steps)
    ensures Inv(After(s, steps))
    decreases |steps|
  {
    if steps != [] {
      StepKeepsInv(s, steps[0]);
      RunKeepsInv(Do(s, steps[0]), steps[1..]);
    }
  }

  lemma {:induction false} RunConcat(s: State, a: seq<Step>, b: seq<Step>)
    requires ValidRun(s, a) && ValidRun(After(s, a), b)
    ensures ValidRun(s, a + b) && After(s, a + b) == After(After(s, a), b)
    decreases |a|
  {
    if a == [] {
      assert a + b == b;
    } else {
      assert (a + b)[1..] == a[1..] + b;
      RunConcat(Do(s, a[0]), a[1..], b);
    }
  }

  // ---------- what is posted is what is run ----------

  // The tasks handed to `post`, in the order in which their threads get the mutex.
  function Acquired(steps: seq<Step>): seq<Task> {
    if steps == [] then []
    else (if steps[0].Acquire? then [steps[0].task] else []) + Acquired(steps[1..])
  }

  // The tasks of the Acquire steps whose Push follows, in the order of the pushes; `open` holds
  // what was acquired and not pushed before.
  function PostedFrom(steps: seq<Step>, open: map<Tid, Task>): seq<Task>
    decreases |steps|
  {
    if steps == [] then []
    else
      match steps[0]
      case Acquire(t, task) => PostedFrom(steps[1..], open[t := task])
      case Push(t) =>
        (if t in open then [open[t]] else []) + PostedFrom(steps[1..], open - {t})
      case _ => PostedFrom(steps[1..], open)
  }

  function Posted(steps: seq<Step>): seq<Task> { PostedFrom(steps, map[]) }

  function RunTasks(steps: seq<Step>): nat {
    if steps == [] then 0 else (if steps[0] == RunTask then 1 else 0) + RunTasks(steps[1..])
  }

  // The task of the thread that holds the mutex and has not pushed yet.
  function Held(s: State): seq<Task> {
    if s.lock.Some? && s.lock.value.ByPoster? && s.lock.value.t in s.posters
       && s.posters[s.lock.value.t].Locked?
    then [s.posters[s.lock.value.t].task]
    else []
  }

  lemma StepHandsOver(s: State, step: Step)
    requires Inv(s) && Enabled(s, step)
    ensures var s' := Do(s, step);
            s'.pushed + Held(s') == (s.pushed + Held(s)) + Acquired([step])
  {
    hide Signalled, PostPending, HistoryOk;
    var s' := Do(s, step);
    assert Acquired([step][1..]) == [];
    if step.Push? || step.Release? {
      assert HoldsLock(s, step.t);
      if step.Push? { assert s.pushed + [s.posters[step.t].task] + [] == s'.pushed; }
    } else if step.Acquire? {
      assert Held(s) == [] && Held(s') == [step.task];
    } else {
      assert Held(s') == Held(s);
    }
  }

  lemma AcquiredStep(steps: seq<Step>)
    requires steps != []
    ensures Acquired(steps) == Acquired([steps[0]]) + Acquired(steps[1..])
  {
    assert [steps[0]][1..] == [];
  }

  // In every run: what was handed to `post` has been pushed, in order, or its thread is about to.
  lemma {:induction false} RunHandsOver(s: State, steps: seq<Step>)
    requires Inv(s) && ValidRun(s, steps)
    ensures var e := After(s, steps); e.pushed + Held(e) == (s.pushed + Held(s)) + Acquired(steps)
    decreases |steps|
  {
    hide Inv, Held, Enabled, Do, Acquired;
    if steps == [] {
      NoneAcquired(s.pushed + Held(s));
    } else {
      var s' := Do(s, steps[0]);
      StepKeepsInv(s, steps[0]);
      StepHandsOver(s, steps[0]);
      RunHandsOver(s', steps[1..]);
      AcquiredStep(steps);
      TasksAssoc(s.pushed + Held(s), Acquired([steps[0]]), Acquired(steps[1..]));
    }
  }

  lemma NoneAcquired(tasks: seq<Task>)
    ensures tasks + Acquired([]) == tasks
  {
  }

  lemma TasksAssoc(a: seq<Task>, b: seq<Task>, c: seq<Task>)
    ensures (a + b) + c == a + (b + c)
  {
  }

  ghost predicate OpenOk(s: State, open: map<Tid, Task>) {
    forall t :: t in s.posters && s.posters[t].Locked? ==> t in open && open[t] == s.posters[t].task
  }

  lemma {:induction false} RunPushesPosted(s: State, steps: seq<Step>, open: map<Tid, Task>)
    requires ValidRun(s, steps) && OpenOk(s, open)
    ensures After(s, steps).pushed == s.pushed + PostedFrom(steps, open)
    decreases |steps|
  {
    if steps != [] {
      var s', rest := Do(s, steps[0]), steps[1..];
      match steps[0]
      case Acquire(t, task) => RunPushesPosted(s', rest, open[t := task]);
      case Push(t) =>
        RunPushesPosted(s', rest, open - {t});
        TasksAssoc(s.pushed, [open[t]], PostedFrom(rest, open - {t}));
      case _ => RunPushesPosted(s', rest, open);
    }
  }

  lemma {:induction false} RunTaskRuns(s: State, steps: seq<Step>)
    requires ValidRun(s, steps)
    ensures |After(s, steps).ran| == |s.ran| + RunTasks(steps)
    decreases |steps|
  {
    if steps != [] { RunTaskRuns(Do(s, steps[0]), steps[1..]); }
  }

  // The history in terms of the steps alone: what has been pushed is what was posted, what has been
  // run took one step each, and everything handed to `post` has been run, been taken, is queued or
  // is in the hands of the thread that holds the mutex, in this order.
  lemma PostedTasks(steps: seq<Step>)
    requires ValidRun(INIT, steps)
    ensures var s := After(INIT, steps);
            && s.pushed == Posted(steps)
            && |s.ran| == RunTasks(steps)
            && Acquired(steps) == s.ran + Taken(s) + s.queue + Held(s)
  {
    hide PostedFrom, Acquired, RunTasks, Held, Taken, ValidRun, After;
    InitInv();
    RunKeepsInv(INIT, steps);
    RunPushesPosted(INIT, steps, map[]);
    RunTaskRuns(INIT, steps);
    RunHandsOver(INIT, steps);
    NothingHeld(INIT);
    assert ([] + []) + Acquired(steps) == Acquired(steps) && [] + Posted(steps) == Posted(steps);
  }

  lemma NothingHeld(s: State)
    requires s.posters == map[]
    ensures Held(s) == []
  {
  }

  lemma InitInv()
    ensures Inv(INIT)
  {
  }

  // ---------- one signal a wake-up ----------

  // The threads that found the flag clear and have not written yet.
  function Writers(posters: map<Tid, PosterPc>): set<Tid> {
    set t | t in posters && posters[t] == MustWrite
  }

  function Writes(steps: seq<Step>): nat {
    if steps == [] then 0 else (if steps[0].Write? then 1 else 0) + Writes(steps[1..])
  }

  function Clears(steps: seq<Step>): nat {
    if steps == [] then 0 else (if steps[0] == Clear then 1 else 0) + Clears(steps[1..])
  }

  // What may still be written before the flag is cleared again.
  function Budget(s: State): nat {
    |Writers(s.posters)| + if s.notified then 0 else 1
  }

  lemma WritersSame(posters: map<Tid, PosterPc>, t: Tid, pc: PosterPc)
    requires pc != MustWrite && (t in posters ==> posters[t] != MustWrite)
    ensures Writers(posters[t := pc]) == Writers(posters) && Writers(posters - {t}) == Writers(posters)
  {
  }

  lemma WritersChange(posters: map<Tid, PosterPc>, t: Tid)
    requires t in posters
    ensures Writers(posters[t := MustWrite]) == Writers(posters) + {t}
    ensures Writers(posters - {t}) == Writers(posters) - {t}
  {
  }

  lemma BudgetStep(s: State, step: Step)
    requires Enabled(s, step)
    ensures Budget(Do(s, step)) + (if step.Write? then 1 else 0) <= Budget(s) + (if step == Clear then 1 else 0)
  {
    hide Writers;
    match step
    case Acquire(t, task) => WritersSame(s.posters, t, Locked(task));
    case Push(t) => WritersSame(s.posters, t, PushedLocked);
    case Release(t) => WritersSame(s.posters, t, Unlocked);
    case Exchange(t) =>
      WritersSame(s.posters, t, Unlocked);
      WritersChange(s.posters, t);
    case Write(t) =>
      WritersChange(s.posters, t);
      IsWriter(s.posters, t);
    case _ =>
  }

  lemma IsWriter(posters: map<Tid, PosterPc>, t: Tid)
    requires t in posters && posters[t] == MustWrite
    ensures t in Writers(posters)
  {
  }

  lemma {:induction false} WritesBounded(s: State, steps: seq<Step>)
    requires ValidRun(s, steps)
    ensures Writes(steps) + Budget(After(s, steps)) <= Budget(s) + Clears(steps)
    decreases |steps|
  {
    hide Budget, Enabled, Do;
    if steps != [] {
      BudgetStep(s, steps[0]);
      WritesBounded(Do(s, steps[0]), steps[1..]);
    }
  }

  // However many threads post, the eventfd is written at most once more than the flag was cleared.
  lemma OneSignalPerWake(steps: seq<Step>)
    requires ValidRun(INIT, steps)
    ensures Writes(steps) <= 1 + Clears(steps)
  {
    WritesBounded(INIT, steps);
    assert Writers(INIT.posters) == {};
  }

  // ---------- main results ----------

  // In every interleaving: queued tasks have a poster still between its push and its write, a
  // signal or completion pending, or a ring thread that has yet to swap. The tasks handed to `post`
  // are run in the order in which their threads got the mutex, each exactly once.
  lemma NoLostWakeup(steps: seq<Step>)
    requires ValidRun(INIT, steps)
    ensures var s := After(INIT, steps);
            && (s.queue != [] ==>
                 || (exists t :: At(s, t, PushedLocked) || At(s, t, Unlocked) || At(s, t, MustWrite))
                 || s.counter > 0 || s.read == Completed
                 || s.ring == Woken || s.ring == Cleared || s.ring == RingLocked)
            && Acquired(steps) == s.ran + Taken(s) + s.queue + Held(s)
  {
    RunKeepsInv(INIT, steps);
    PostedTasks(steps);
    var s := After(INIT, steps);
    if s.queue != [] && PostPending(s) {
      var t :| At(s, t, PushedLocked) || At(s, t, Unlocked);
    }
  }

  // The mutex is never held by two threads.
  lemma MutualExclusion(steps: seq<Step>, t: Tid, u: Tid)
    requires ValidRun(INIT, steps)
    ensures var s := After(INIT, steps);
            && (HoldsLock(s, t) && HoldsLock(s, u) ==> t == u)
            && !(HoldsLock(s, t) && (s.ring == RingLocked || s.ring.Swapped?))
  {
    RunKeepsInv(INIT, steps);
  }

  // ---------- every schedule comes to rest with everything run ----------

  // The threads already in `post`, the ring and the kernel at work: no new post, and no completion
  // of the eventfd read without a signal.
  predicate Progress(step: Step) { !step.Acquire? && !step.CompleteSpuriously? }

  predicate AllProgress(steps: seq<Step>) {
    forall i | 0 <= i < |steps| :: Progress(steps[i])
  }

  function PosterWeight(pc: PosterPc): nat {
    match pc case Locked(_) => 13 case PushedLocked => 11 case Unlocked => 10 case MustWrite => 9
  }

  ghost function Pick(posters: map<Tid, PosterPc>): (t: Tid)
    requires posters != map[]
    ensures t in posters
  {
    var t :| t in posters;
    t
  }

  ghost function PostersWeight(posters: map<Tid, PosterPc>): nat
    decreases posters.Keys
  {
    if posters == map[] then 0
    else
      var t := Pick(posters);
      PosterWeight(posters[t]) + PostersWeight(posters - {t})
  }

  // The sum does not depend on the order in which the threads are picked.
  lemma {:induction false} WeightOf(posters: map<Tid, PosterPc>, t: Tid)
    requires t in posters
    ensures PostersWeight(posters) == PosterWeight(posters[t]) + PostersWeight(posters - {t})
    decreases posters.Keys
  {
    var u := Pick(posters);
    if u != t {
      WeightOf(posters - {u}, t);
      WeightOf(posters - {t}, u);
      assert posters - {u} - {t} == posters - {t} - {u};
    }
  }

  lemma WeightUpdate(posters: map<Tid, PosterPc>, t: Tid, pc: PosterPc)
    ensures PostersWeight(posters[t := pc]) == PosterWeight(pc) + PostersWeight(posters - {t})
  {
    WeightOf(posters[t := pc], t);
    assert posters[t := pc] - {t} == posters - {t};
  }

  function RingWeight(s: State): nat {
    match s.ring
    case Waiting => (match s.read case Completed => 7 case Prepared => 1 case _ => 0)
    case Woken => 6
    case Cleared => 5
    case RingLocked => 4
    case Swapped(taken) => 3 + |taken|
    case Running(taken) => 2 + |taken|
  }

  // What is left to do, with eight steps for every signal that has not reached the ring.
  ghost function Rank(s: State): nat {
    8 * s.counter + RingWeight(s) + |s.queue| + PostersWeight(s.posters)
  }

  // What a new post and a completion without a signal may add to the work.
  function Allowance(step: Step): nat {
    if step.Acquire? then 14 else if step.CompleteSpuriously? then 8 else 0
  }

  function TotalAllowance(steps: seq<Step>): nat {
    if steps == [] then 0 else Allowance(steps[0]) + TotalAllowance(steps[1..])
  }

  lemma PosterRankStep(s: State, step: Step)
    requires Enabled(s, step) && (step.Acquire? || step.Push? || step.Release? || step.Exchange? || step.Write?)
    ensures Rank(Do(s, step)) < Rank(s) + Allowance(step)
  {
    hide PostersWeight;
    var t := step.t;
    if step.Acquire? {
      WeightUpdate(s.posters, t, Locked(step.task));
      assert s.posters - {t} == s.posters;
    } else {
      WeightOf(s.posters, t);
      if t in Do(s, step).posters { WeightUpdate(s.posters, t, Do(s, step).posters[t]); }
    }
  }

  // Every step of the threads under way leaves strictly less to do.
  lemma RankStep(s: State, step: Step)
    requires Inv(s) && Enabled(s, step)
    ensures Rank(Do(s, step)) < Rank(s) + Allowance(step)
  {
    hide PostersWeight, LockOk, HistoryOk, Signalled, PostPending;
    if step.Acquire? || step.Push? || step.Release? || step.Exchange? || step.Write? {
      PosterRankStep(s, step);
    } else {
      assert Do(s, step).posters == s.posters;
    }
  }

  // The length of every run is bounded by the work at its start, its posts and its completions
  // without a signal.
  lemma {:induction false} RunLength(s: State, steps: seq<Step>)
    requires Inv(s) && ValidRun(s, steps)
    ensures |steps| + Rank(After(s, steps)) <= Rank(s) + TotalAllowance(steps)
    decreases |steps|
  {
    hide Rank, Allowance, Inv, Enabled, Do;
    if steps != [] {
      StepKeepsInv(s, steps[0]);
      RankStep(s, steps[0]);
      RunLength(Do(s, steps[0]), steps[1..]);
    }
  }

  lemma {:induction false} NoAllowance(steps: seq<Step>)
    requires AllProgress(steps)
    ensures TotalAllowance(steps) == 0
  {
    if steps != [] { NoAllowance(steps[1..]); }
  }

  ghost predicate Stuck(s: State) {
    forall step | Progress(step) :: !Enabled(s, step)
  }

  predicate AtRest(s: State) {
    s.posters == map[] && s.ring == Waiting && s.read == Submitted && s.queue == [] && s.ran == s.pushed
  }

  lemma StuckPosters(s: State)
    requires Stuck(s)
    ensures s.posters == map[]
  {
    assert forall t | t in s.posters ::
        !Enabled(s, Push(t)) && !Enabled(s, Release(t)) && !Enabled(s, Exchange(t)) && !Enabled(s, Write(t));
  }

  lemma LockFree(s: State)
    requires LockOk(s) && s.posters == map[] && s.ring == Cleared
    ensures s.lock == None
  {
    assert forall t :: !HoldsLock(s, t);
  }

  lemma StuckRing(s: State)
    requires Inv(s) && Stuck(s) && s.posters == map[]
    ensures s.ring == Waiting && s.read == Submitted && s.counter == 0
  {
    hide LockOk, Signalled, PostPending, HistoryOk, Stuck;
    match s.ring {
      case Waiting => StuckAt(s, Reap); StuckAt(s, Submit); StuckAt(s, Complete);
      case Woken => StuckAt(s, Clear);
      case Cleared => StuckAt(s, RingAcquire); LockFree(s);
      case RingLocked => StuckAt(s, Swap);
      case Swapped(_) => StuckAt(s, RingRelease);
      case Running(taken) => StuckAt(s, if taken == [] then Rearm else RunTask);
    }
  }

  lemma StuckAt(s: State, step: Step)
    requires Stuck(s) && Progress(step)
    ensures !Enabled(s, step)
  {
  }

  // A state that only a new post or a completion without a signal could change has no thread inside
  // `post`, an armed read and an empty queue.
  lemma StuckState(s: State)
    requires Inv(s)
    ensures Stuck(s) ==> AtRest(s)
  {
    if Stuck(s) {
      StuckPosters(s);
      StuckRing(s);
    }
  }

  lemma RestRanAll(steps: seq<Step>)
    requires ValidRun(INIT, steps) && AtRest(After(INIT, steps))
    ensures After(INIT, steps).ran == Acquired(steps)
  {
    hide Acquired, ValidRun, After, Held;
    var s := After(INIT, steps);
    PostedTasks(steps);
    NothingHeld(s);
    assert s.ran + [] + [] + [] == s.ran;
  }

  // No run gets stuck but with every task that was ever handed to `post` run, in order.
  lemma StuckIsAtRest(steps: seq<Step>)
    requires ValidRun(INIT, steps)
    ensures var s := After(INIT, steps); Stuck(s) ==> AtRest(s) && s.ran == Acquired(steps)
  {
    hide Inv, Stuck, AtRest, Acquired, ValidRun, After;
    InitInv();
    RunKeepsInv(INIT, steps);
    StuckState(After(INIT, steps));
    if Stuck(After(INIT, steps)) { RestRanAll(steps); }
  }

  lemma {:induction false} AcquiredConcat(a: seq<Step>, b: seq<Step>)
    ensures Acquired(a + b) == Acquired(a) + Acquired(b)
  {
    if a == [] {
      assert a + b == b;
    } else {
      assert (a + b)[1..] == a[1..] + b;
      AcquiredConcat(a[1..], b);
    }
  }

  lemma {:induction false} ProgressAcquiresNone(steps: seq<Step>)
    requires AllProgress(steps)
    ensures Acquired(steps) == []
  {
    if steps != [] {
      assert Progress(steps[0]);
      ProgressAcquiresNone(steps[1..]);
    }
  }

  // A continuation without posts has the same tasks to run.
  lemma Continued(past: seq<Step>, future: seq<Step>)
    requires ValidRun(INIT, past) && ValidRun(After(INIT, past), future) && AllProgress(future)
    ensures ValidRun(INIT, past + future) && After(INIT, past + future) == After(After(INIT, past), future)
    ensures Acquired(past + future) == Acquired(past)
  {
    hide Acquired, ValidRun, After;
    RunConcat(INIT, past, future);
    AcquiredConcat(past, future);
    ProgressAcquiresNone(future);
  }

  // In every schedule: the threads under way stop after at most Rank steps, and where they stop
  // every task handed to `post` has been run, in order.
  lemma EveryScheduleRunsAll(past: seq<Step>, future: seq<Step>)
    requires ValidRun(INIT, past) && ValidRun(After(INIT, past), future) && AllProgress(future)
    ensures |future| <= Rank(After(INIT, past))
    ensures var e := After(After(INIT, past), future);
            Stuck(e) ==> AtRest(e) && e.ran == Acquired(past)
  {
    hide Inv, Rank, Stuck, AtRest, Enabled, Do, Acquired, ValidRun, After;
    InitInv();
    RunKeepsInv(INIT, past);
    RunLength(After(INIT, past), future);
    NoAllowance(future);
    Continued(past, future);
    StuckIsAtRest(past + future);
  }

  // ---------- schedules that get there ----------

  lemma RunCons(s: State, step: Step, rest: seq<Step>)
    requires Enabled(s, step) && ValidRun(Do(s, step), rest)
    ensures ValidRun(s, [step] + rest) && After(s, [step] + rest) == After(Do(s, step), rest)
  {
    assert ([step] + rest)[1..] == rest;
  }

  predicate StepInPost(step: Step, t: Tid) {
    step == Push(t) || step == Release(t) || step == Exchange(t) || step == Write(t)
  }

  predicate StepOfRing(step: Step) {
    Progress(step) && !step.Push? && !step.Release? && !step.Exchange? && !step.Write?
  }

  lemma NextInPost(s: State, t: Tid) returns (step: Step)
    requires t in s.posters
    ensures StepInPost(step, t) && Enabled(s, step)
    ensures var posters := Do(s, step).posters;
            if t in posters then
              posters.Keys == s.posters.Keys && PosterWeight(posters[t]) < PosterWeight(s.posters[t])
            else posters.Keys == s.posters.Keys - {t}
  {
    step := match s.posters[t]
      case Locked(_) => Push(t)
      case PushedLocked => Release(t)
      case Unlocked => Exchange(t)
      case MustWrite => Write(t);
  }

  // A thread inside `post` gets out of it by its own steps alone.
  lemma {:induction false} PosterFinishes(s: State, t: Tid) returns (steps: seq<Step>)
    requires Inv(s) && t in s.posters
    ensures ValidRun(s, steps) && Inv(After(s, steps))
    ensures forall i | 0 <= i < |steps| :: StepInPost(steps[i], t)
    ensures After(s, steps).posters.Keys == s.posters.Keys - {t}
    decreases PosterWeight(s.posters[t])
  {
    hide Enabled, Do, Inv, PosterWeight, StepInPost;
    var step := NextInPost(s, t);
    var s' := Do(s, step);
    StepKeepsInv(s, step);
    var rest := [];
    if t in s'.posters { rest := PosterFinishes(s', t); }
    RunCons(s, step, rest);
    steps := [step] + rest;
  }

  lemma {:induction false} PostersFinish(s: State) returns (steps: seq<Step>)
    requires Inv(s)
    ensures ValidRun(s, steps) && Inv(After(s, steps)) && After(s, steps).posters == map[]
    ensures AllProgress(steps)
    decreases |s.posters.Keys|
  {
    hide Inv, Enabled, Do;
    steps := [];
    if s.posters != map[] {
      var t :| t in s.posters;
      var a := PosterFinishes(s, t);
      var b := PostersFinish(After(s, a));
      RunConcat(s, a, b);
      steps := a + b;
    }
  }

  // With no thread inside `post`, the ring and the kernel run what is queued, on signals alone.
  lemma {:induction false} RingDrains(s: State) returns (steps: seq<Step>)
    requires Inv(s) && s.posters == map[]
    ensures ValidRun(s, steps) && Inv(After(s, steps))
    ensures forall i | 0 <= i < |steps| :: StepOfRing(steps[i])
    ensures AtRest(After(s, steps)) && After(s, steps).ran == s.ran + Taken(s) + s.queue
    decreases Rank(s)
  {
    hide Rank;
    if step :| Progress(step) && Enabled(s, step) {
      StepKeepsInv(s, step);
      RankStep(s, step);
      var rest := RingDrains(Do(s, step));
      RunCons(s, step, rest);
      steps := [step] + rest;
    } else {
      StuckState(s);
      steps := [];
    }
  }

  // From every reachable state the threads already in `post`, the ring and the kernel can bring
  // the ring to rest with every task handed to `post` run, in order.
  lemma EverythingCanRun(past: seq<Step>) returns (future: seq<Step>)
    requires ValidRun(INIT, past)
    ensures ValidRun(After(INIT, past), future) && AllProgress(future)
    ensures var e := After(After(INIT, past), future); AtRest(e) && e.ran == Acquired(past)
  {
    hide Inv, AtRest, Enabled, Do, Acquired, ValidRun, After;
    InitInv();
    RunKeepsInv(INIT, past);
    var s := After(INIT, past);
    var a := PostersFinish(s);
    var b := RingDrains(After(s, a));
    RunConcat(s, a, b);
    future := a + b;
    Continued(past, future);
    RestRanAll(past + future);
  }
}
