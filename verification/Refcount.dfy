/** The saturating reference counter of refcount.cc: any number of threads, each in a
    compare-and-swap loop, one atomic access per step. */
module Refcount {

  const REFCOUNT_MAX := 0xffff_ffff

  type u32 = x: int | 0 <= x < 0x1_0000_0000
  type Tid = nat
  type Ref = nat

  // A thread inside CRYPTO_refcount_inc or CRYPTO_refcount_dec_and_test_zero, with the value it
  // expects and the reference it makes the call on. A thread outside is not in the map.
  datatype Pc = Inc(r: Ref, expected: u32) | Dec(r: Ref, expected: u32)

  // `refs` maps every live reference to the thread that owns it.
  datatype State = State(
    count: u32,
    threads: map<Tid, Pc>,
    refs: map<Ref, Tid>,
    zeroReports: nat,
    aborted: bool)

  datatype Step =
    | StartInc(t: Tid, r: Ref)          // load
    | IncSaturated(t: Tid, new': Ref)   // expected is the maximum: leave the loop
    | IncSwap(t: Tid, new': Ref)        // the compare-and-swap succeeds
    | StartDec(t: Tid, r: Ref)          // load
    | DecAbort(t: Tid)                  // expected is zero
    | DecSaturated(t: Tid)              // expected is the maximum: report "not zero"
    | DecSwap(t: Tid)                   // the compare-and-swap succeeds
    | Retry(t: Tid)                     // it fails, perhaps for no reason, and reloads
    | Give(r: Ref, u: Tid)              // a reference changes hands

  predicate Busy(s: State, r: Ref) {
    exists t | t in s.threads :: s.threads[t].r == r
  }

  predicate BeingDropped(s: State, r: Ref) {
    exists t | t in s.threads :: s.threads[t] == Dec(r, s.threads[t].expected)
  }

  predicate IsInc(s: State, t: Tid) { t in s.threads && s.threads[t].Inc? }

  predicate IsDec(s: State, t: Tid) { t in s.threads && s.threads[t].Dec? }

  // A thread may increment through any live reference that nobody is giving up, its own or one that
  // another thread owns and keeps; only the owner gives a reference up, when nobody is using it.
  predicate Enabled(s: State, step: Step) {
    !s.aborted &&
    match step
    case StartInc(t, r) => t !in s.threads && r in s.refs && !BeingDropped(s, r)
    case IncSaturated(t, n) => IsInc(s, t) && s.threads[t].expected == REFCOUNT_MAX && n !in s.refs
    case IncSwap(t, n) =>
      IsInc(s, t) && s.threads[t].expected != REFCOUNT_MAX && s.count == s.threads[t].expected && n !in s.refs
    case StartDec(t, r) => t !in s.threads && r in s.refs && s.refs[r] == t && !Busy(s, r)
    case DecAbort(t) => IsDec(s, t) && s.threads[t].expected == 0
    case DecSaturated(t) => IsDec(s, t) && s.threads[t].expected == REFCOUNT_MAX
    case DecSwap(t) =>
      IsDec(s, t) && 0 < s.threads[t].expected < REFCOUNT_MAX && s.count == s.threads[t].expected
    case Retry(t) =>
      t in s.threads && s.threads[t].expected != REFCOUNT_MAX && (IsDec(s, t) ==> s.threads[t].expected != 0)
    case Give(r, _) => r in s.refs && !BeingDropped(s, r)
  }

  function Do(s: State, step: Step): State
    requires Enabled(s, step)
  {
    match step
    case StartInc(t, r) => s.(threads := s.threads[t := Inc(r, s.count)])
    case IncSaturated(t, n) => s.(threads := s.threads - {t}, refs := s.refs[n := t])
    case IncSwap(t, n) => s.(count := s.count + 1, threads := s.threads - {t}, refs := s.refs[n := t])
    case StartDec(t, r) => s.(threads := s.threads[t := Dec(r, s.count)])
    case DecAbort(t) => s.(aborted := true)
    case DecSaturated(t) => s.(threads := s.threads - {t}, refs := s.refs - {s.threads[t].r})
    case DecSwap(t) =>
      s.(count := s.count - 1, threads := s.threads - {t}, refs := s.refs - {s.threads[t].r},
         zeroReports := s.zeroReports + (if s.count - 1 == 0 then 1 else 0))
    case Retry(t) => s.(threads := s.threads[t := s.threads[t].(expected := s.count)])
    case Give(r, u) => s.(refs := s.refs[r := u])
  }

  predicate ValidRun(s: State, steps: seq<Step>)
    decreases |steps|
  {
    steps == [] || (Enabled(s, steps[0]) && ValidRun(Do(s, steps[0]), steps[1..]))
  }

  function After(s: State, steps: seq<Step>): State
    requires ValidRun(s, steps)
    decreases |steps|
  {
    if steps == [] then s else After(Do(s, steps[0]), steps[1..])
  }

  // A new object has one reference, owned by its creator.
  const INIT: State := State(1, map[], map[0 := 0], 0, false)

  // ---------- what every step keeps ----------

  // A thread works through a live reference. If it is giving the reference up, it owns it and no
  // other thread works through it. It never expects zero, and a saturated counter stays so.
  ghost predicate ThreadOk(s: State, t: Tid)
    requires t in s.threads
  {
    var pc := s.threads[t];
    && pc.r in s.refs
    && (pc.Dec? ==> s.refs[pc.r] == t && forall u | u in s.threads && u != t :: s.threads[u].r != pc.r)
    && pc.expected > 0
    && (pc.expected == REFCOUNT_MAX ==> s.count == REFCOUNT_MAX)
  }

  ghost predicate CountOk(s: State) {
    && !s.aborted
    && (s.count < REFCOUNT_MAX ==> s.count == |s.refs|)
    && s.zeroReports == (if s.count == 0 then 1 else 0)
  }

  ghost predicate Inv(s: State) {
    CountOk(s) && forall t | t in s.threads :: ThreadOk(s, t)
  }

  lemma StepKeepsCount(s: State, step: Step)
    requires Inv(s) && Enabled(s, step)
    ensures CountOk(Do(s, step))
  {
    hide Busy, BeingDropped;
    if step.DecAbort? || step.DecSaturated? || step.DecSwap? { assert ThreadOk(s, step.t); }
  }

  lemma StepKeepsThread(s: State, step: Step, u: Tid)
    requires Inv(s) && Enabled(s, step) && u in Do(s, step).threads
    ensures ThreadOk(Do(s, step), u)
  {
    if u in s.threads { assert ThreadOk(s, u); }
    if step.DecSaturated? || step.DecSwap? { assert ThreadOk(s, step.t); }
  }

  lemma StepKeepsInv(s: State, step: Step)
    requires Inv(s) && Enabled(s, step)
    ensures Inv(Do(s, step))
  {
    hide Enabled, Do, CountOk, ThreadOk;
    StepKeepsCount(s, step);
    forall u | u in Do(s, step).threads
      ensures ThreadOk(Do(s, step), u)
    {
      StepKeepsThread(s, step, u);
    }
  }

  lemma {:induction false} RunKeepsInv(s: State, steps: seq<Step>)
    requires Inv(s) && ValidRun(s, steps)
    ensures Inv(After(s, steps))
    decreases |steps|
  {
    if steps != [] {
      StepKeepsInv(s, steps[0]);
      RunKeepsInv(Do(s, steps[0]), steps[1..]);
    }
  }

  // ---------- references counted by the steps alone ----------

  predicate Takes(step: Step) { step.IncSwap? || step.IncSaturated? }

  predicate Drops(step: Step) { step.DecSwap? || step.DecSaturated? }

  // References taken minus references dropped.
  function Net(steps: seq<Step>): int {
    if steps == [] then 0
    else (if Takes(steps[0]) then 1 else if Drops(steps[0]) then -1 else 0) + Net(steps[1..])
  }

  lemma StepRefs(s: State, step: Step)
    requires Inv(s) && Enabled(s, step)
    ensures |Do(s, step).refs| == |s.refs| + Net([step])
  {
    assert [step][1..] == [];
    hide CountOk, Busy, BeingDropped;
    if step.DecSwap? || step.DecSaturated? {
      assert ThreadOk(s, step.t);
      var r := s.threads[step.t].r;
      assert (s.refs - {r}).Keys == s.refs.Keys - {r};
    } else if Takes(step) {
      assert s.refs[step.new' := step.t].Keys == s.refs.Keys + {step.new'};
    } else if step.Give? {
      assert s.refs[step.r := step.u].Keys == s.refs.Keys;
    }
  }

  lemma NetStep(steps: seq<Step>)
    requires steps != []
    ensures Net(steps) == Net([steps[0]]) + Net(steps[1..])
  {
    assert [steps[0]][1..] == [];
  }

  lemma {:induction false} RunRefs(s: State, steps: seq<Step>)
    requires Inv(s) && ValidRun(s, steps)
    ensures |After(s, steps).refs| == |s.refs| + Net(steps)
    decreases |steps|
  {
    hide Inv, Enabled, Do, Net;
    if steps == [] {
      assert Net([]) == 0 by { NetNone(); }
    } else {
      StepKeepsInv(s, steps[0]);
      StepRefs(s, steps[0]);
      NetStep(steps);
      RunRefs(Do(s, steps[0]), steps[1..]);
    }
  }

  lemma NetNone()
    ensures Net([]) == 0
  {
  }

  // ---------- main results ----------

  // In every interleaving the counter, while below its maximum, is one plus the increments minus the
  // decrements that have returned, which is the number of live references; nothing aborts; and
  // zero has been reported once if the counter is at zero, and not at all otherwise.
  lemma CountsReferences(steps: seq<Step>)
    requires ValidRun(INIT, steps)
    ensures var s := After(INIT, steps);
            && !s.aborted
            && |s.refs| == 1 + Net(steps)
            && (s.count < REFCOUNT_MAX ==> s.count == 1 + Net(steps))
            && s.zeroReports == (if s.count == 0 then 1 else 0)
  {
    hide ValidRun, After, Net;
    InitInv();
    RunKeepsInv(INIT, steps);
    RunRefs(INIT, steps);
  }

  lemma InitInv()
    ensures Inv(INIT) && |INIT.refs| == 1
  {
    assert INIT.refs.Keys == {0};
  }

  // An increment that returns leaves its thread with the new reference, beside all others; a
  // decrement takes away the reference it was called on and no other.
  lemma ReferenceChanges(s: State, step: Step)
    requires Inv(s) && Enabled(s, step)
    ensures Takes(step) ==>
              && step.new' in Do(s, step).refs && Do(s, step).refs[step.new'] == step.t
              && forall r | r in s.refs :: r in Do(s, step).refs && Do(s, step).refs[r] == s.refs[r]
    ensures Drops(step) ==>
              var gone := s.threads[step.t].r;
              && gone in s.refs && s.refs[gone] == step.t && gone !in Do(s, step).refs
              && forall r | r in s.refs && r != gone :: r in Do(s, step).refs && Do(s, step).refs[r] == s.refs[r]
  {
    hide CountOk, Busy, BeingDropped;
    if Drops(step) { assert ThreadOk(s, step.t); }
  }

  // Below saturation nobody is told "zero" while a reference is left: zero is reported by the
  // decrement that takes the last one away.
  lemma ZeroIsLast(s: State, step: Step)
    requires Inv(s) && Enabled(s, step) && Do(s, step).zeroReports > s.zeroReports
    ensures step.DecSwap? && |s.refs| == 1 && Do(s, step).refs == map[]
  {
    hide Busy, BeingDropped;
    StepKeepsInv(s, step);
  }

  // A thread inside a call returns after at most two steps of its own, if the others stand still.
  lemma CallReturns(s: State, t: Tid, n: Ref) returns (steps: seq<Step>)
    requires Inv(s) && t in s.threads && n !in s.refs
    ensures ValidRun(s, steps) && 1 <= |steps| <= 2
    ensures steps[0] in {Retry(t), IncSaturated(t, n), DecSaturated(t), IncSwap(t, n), DecSwap(t)}
    ensures |steps| == 2 ==> steps[1] in {IncSaturated(t, n), DecSaturated(t), IncSwap(t, n), DecSwap(t)}
    ensures t !in After(s, steps).threads && Net(steps) == if s.threads[t].Inc? then 1 else -1
  {
    assert ThreadOk(s, t);
    if s.threads[t].expected == REFCOUNT_MAX || s.threads[t].expected == s.count {
      var last := LastStep(s, t, n);
      steps := [last];
      OneStep(s, last);
    } else {
      var s' := Do(s, Retry(t));
      StepKeepsInv(s, Retry(t));
      var last := LastStep(s', t, n);
      steps := [Retry(t), last];
      OneStep(s', last);
      assert steps[1..] == [last];
    }
  }

  lemma OneStep(s: State, step: Step)
    requires Enabled(s, step)
    ensures ValidRun(s, [step]) && After(s, [step]) == Do(s, step)
    ensures Net([step]) == if Takes(step) then 1 else if Drops(step) then -1 else 0
  {
    hide Enabled, Do;
    assert [step][1..] == [];
  }

  lemma LastStep(s: State, t: Tid, n: Ref) returns (step: Step)
    requires Inv(s) && t in s.threads && n !in s.refs
    requires s.threads[t].expected == REFCOUNT_MAX || s.threads[t].expected == s.count
    ensures step in {IncSaturated(t, n), DecSaturated(t), IncSwap(t, n), DecSwap(t)} && Enabled(s, step)
    ensures t !in Do(s, step).threads && (Takes(step) <==> s.threads[t].Inc?)
  {
    assert ThreadOk(s, t);
    var top := s.threads[t].expected == REFCOUNT_MAX;
    if s.threads[t].Inc? {
      step := if top then IncSaturated(t, n) else IncSwap(t, n);
    } else {
      step := if top then DecSaturated(t) else DecSwap(t);
    }
  }

  // Once saturated, the counter never moves again and zero is never reported.
  lemma {:induction false} SaturationIsPermanent(s: State, steps: seq<Step>)
    requires Inv(s) && s.count == REFCOUNT_MAX && ValidRun(s, steps)
    ensures After(s, steps).count == REFCOUNT_MAX && After(s, steps).zeroReports == 0
    decreases |steps|
  {
    if steps != [] {
      StepKeepsInv(s, steps[0]);
      SaturationIsPermanent(Do(s, steps[0]), steps[1..]);
    }
  }

  // When as many references have been dropped as there ever were, either zero has been reported
  // exactly once or the counter had saturated and it was never reported.
  lemma LastReference(steps: seq<Step>)
    requires ValidRun(INIT, steps) && 1 + Net(steps) == 0
    ensures var s := After(INIT, steps);
            (s.count == 0 && s.zeroReports == 1) || (s.count == REFCOUNT_MAX && s.zeroReports == 0)
  {
    CountsReferences(steps);
  }

  // After zero has been reported all references that were ever taken have been dropped, no thread
  // is inside a call and none can make one.
  lemma NothingAfterZero(steps: seq<Step>, step: Step)
    requires ValidRun(INIT, steps) && After(INIT, steps).zeroReports > 0
    ensures 1 + Net(steps) == 0 && !Enabled(After(INIT, steps), step)
  {
    CountsReferences(steps);
    RunKeepsInv(INIT, steps);
    var s := After(INIT, steps);
    assert s.refs == map[];
  }

  // The counter moves by at most one and never wraps.
  lemma NeverWraps(s: State, step: Step)
    requires Inv(s) && Enabled(s, step)
    ensures var c := Do(s, step).count;
            || c == s.count
            || (c == s.count + 1 && s.count < REFCOUNT_MAX && |Do(s, step).refs| == |s.refs| + 1)
            || (c == s.count - 1 && s.count < REFCOUNT_MAX && |Do(s, step).refs| == |s.refs| - 1)
  {
  }
}
