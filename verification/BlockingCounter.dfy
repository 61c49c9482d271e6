/**
 The counter threads block on until it reaches zero, as a client of the
 conditional mutex: each step of a thread is guarded by its program counter and
 performs one step of the mutex.
 */
module BlockingCounter {
  import opened Wrappers
  import CM = CondMutex

  datatype Pc =
    | Idle
    | Decrementing               // DecrementCount holds the mutex
    | Decremented                // the result is known, the mutex still held
    | Entering                   // Wait holds the mutex, before the wait loop
    | InLoop                     // Wait is evaluating, asleep or waking up
    | Passed                     // Wait saw the condition hold

  datatype State = State(
    m: CM.Mutex<nat>,
    count: int,
    pcs: map<nat, Pc>,
    initial: int,
    results: seq<bool>)          // of every DecrementCount, in order

  datatype Step =
    | BeginDecrement(t: nat)
    | Decrement(t: nat)
    | BeginWait(t: nat)
    | EnterLoop(t: nat)
    | Sleep(t: nat)
    | SpuriousWake(t: nat)
    | Resume(t: nat)
    | Pass(t: nat)
    | Signal(t: nat, woke: set<nat>)
    | Release(t: nat)

  predicate At(s: State, t: nat, pc: Pc) {
    t in s.pcs && s.pcs[t] == pc
  }

  predicate AtUnlock(s: State, t: nat) {
    t in s.pcs && (s.pcs[t].Decremented? || s.pcs[t].Passed?)
  }

  predicate Guard(s: State, step: Step) {
    match step
    case BeginDecrement(t) => At(s, t, Idle)
    case Decrement(t) => At(s, t, Decrementing)
    case BeginWait(t) => At(s, t, Idle)
    case EnterLoop(t) => At(s, t, Entering)
    case Sleep(t) => At(s, t, InLoop) && s.count != 0
    case SpuriousWake(t) => At(s, t, InLoop)
    case Resume(t) => At(s, t, InLoop)
    case Pass(t) => At(s, t, InLoop) && s.count == 0
    case Signal(t, _) => AtUnlock(s, t)
    case Release(t) => AtUnlock(s, t)
  }

  function MutexStep(s: State, step: Step): CM.Step<nat> {
    match step
    case BeginDecrement(t) => CM.Lock(t)
    case Decrement(t) => CM.Work(t, s.count - 1 == 0)
    case BeginWait(t) => CM.Lock(t)
    case EnterLoop(t) => CM.EnterWaitLoop(t)
    case Sleep(t) => CM.Block(t)
    case SpuriousWake(t) => CM.SpuriousWake(t)
    case Resume(t) => CM.Resume(t)
    case Pass(t) => CM.Work(t, s.count == 0)
    case Signal(t, woke) => CM.Signal(t, woke)
    case Release(t) => CM.Release(t)
  }

  predicate Enabled(s: State, step: Step) {
    Guard(s, step) && CM.Enabled(s.m, MutexStep(s, step))
  }

  function Apply(s: State, step: Step): State
    requires Enabled(s, step)
  {
    var s1 := s.(m := CM.Apply(s.m, MutexStep(s, step)));
    match step
    case BeginDecrement(t) => s1.(pcs := s.pcs[t := Decrementing])
    case Decrement(t) =>
      var count := s.count - 1;
      s1.(count := count, results := s.results + [count == 0],
          pcs := s.pcs[t := Decremented])
    case BeginWait(t) => s1.(pcs := s.pcs[t := Entering])
    case EnterLoop(t) => s1.(pcs := s.pcs[t := InLoop])
    case Pass(t) => s1.(pcs := s.pcs[t := Passed])
    case Release(t) => s1.(pcs := s.pcs[t := Idle])
    case _ => s1
  }

  predicate Init(s: State) {
    && s.m == CM.Mutex(None, {}, {}, false, false, s.count == 0)
    && s.count == s.initial && s.results == []
    && forall t | t in s.pcs :: s.pcs[t] == Idle
  }

  ghost predicate IsRun(run: seq<State>) {
    && |run| > 0
    && Init(run[0])
    && forall i | 0 <= i < |run| - 1 ::
         exists step :: Enabled(run[i], step) && run[i + 1] == Apply(run[i], step)
  }

  /** A counter may start at any number and be used by any threads. */
  lemma AnyCounter(count: int, threads: set<nat>) returns (s: State)
    ensures Init(s) && s.count == count && s.pcs.Keys == threads && IsRun([s])
  {
    s := State(CM.Mutex(None, {}, {}, false, false, count == 0), count, map t | t in threads :: Idle, count, []);
  }

  predicate Counted(s: State) {
    && s.count == s.initial - |s.results|
    && forall i | 0 <= i < |s.results| :: s.results[i] <==> i + 1 == s.initial
  }

  ghost predicate Inv(s: State) {
    && CM.Inv(s.m)
    && s.m.cond == (s.count == 0)
    && s.m.waiting + s.m.woken <= s.pcs.Keys
    && (s.m.owner.Some? ==> s.m.owner.value in s.pcs)
    && (s.m.signalled ==> s.m.owner.Some? && AtUnlock(s, s.m.owner.value))
    && (forall t | t in s.pcs :: ThreadInv(s, t))
    && Counted(s)
  }

  predicate ThreadInv(s: State, t: nat)
    requires t in s.pcs
  {
    match s.pcs[t]
    case Idle => s.m.owner != Some(t) && t !in s.m.waiting + s.m.woken
    case InLoop => s.m.signalAtUnlock && (s.m.owner == Some(t) || t in s.m.waiting + s.m.woken)
    case Passed => s.m.owner == Some(t) && s.count == 0
    case _ => s.m.owner == Some(t)
  }

  lemma StepKeepsInv(s: State, step: Step)
    requires Inv(s) && Enabled(s, step)
    ensures Inv(Apply(s, step))
  {
    hide ThreadInv;
    CM.StepKeepsInv(s.m, MutexStep(s, step));
    forall t | t in s.pcs ensures ThreadInv(Apply(s, step), t) { StepKeepsThread(s, step, t); }
  }

  lemma StepKeepsThread(s: State, step: Step, t: nat)
    requires Inv(s) && Enabled(s, step) && t in s.pcs
    ensures ThreadInv(Apply(s, step), t)
  {
    hide Counted;
    assert ThreadInv(s, t);
  }

  lemma {:induction false} RunKeepsInv(run: seq<State>, i: nat)
    requires IsRun(run) && i < |run|
    ensures Inv(run[i])
  {
    hide Enabled, Apply;
    if i > 0 {
      hide Inv;
      RunKeepsInv(run, i - 1);
      assert run[i] == run[i - 1 + 1];
      var step :| Enabled(run[i - 1], step) && run[i] == Apply(run[i - 1], step);
      StepKeepsInv(run[i - 1], step);
    }
  }

  /** `Wait` returns only when the count is zero; a `DecrementCount` reports zero
      exactly when it is the one that reached it; and no waiter sleeps on with the
      count at zero and the mutex free unless another one is already waking. */
  lemma WaitReturnsAtZero(run: seq<State>, i: nat)
    requires IsRun(run) && i < |run|
    ensures Counted(run[i])
    ensures forall t | At(run[i], t, Passed) :: run[i].count == 0
    ensures run[i].count == 0 && run[i].m.owner.None? && run[i].m.waiting != {} ==> run[i].m.woken != {}
  {
    RunKeepsInv(run, i);
  }

  // ----- What each call does -----

  /** A run together with the steps that were taken. */
  ghost predicate IsTrace(run: seq<State>, steps: seq<Step>) {
    && |run| == |steps| + 1 && Init(run[0])
    && forall i | 0 <= i < |steps| :: Enabled(run[i], steps[i]) && run[i + 1] == Apply(run[i], steps[i])
  }

  function Count(steps: seq<Step>, step: Step): nat {
    if steps == [] then 0 else Count(steps[..|steps| - 1], step) + One(steps[|steps| - 1] == step)
  }

  predicate Balanced(pc: Pc, steps: seq<Step>, t: nat) {
    && Count(steps, BeginDecrement(t)) == Count(steps, Decrement(t)) + One(pc == Decrementing)
    && Count(steps, BeginWait(t)) == Count(steps, Pass(t)) + One(pc == Entering || pc == InLoop)
    && Count(steps, BeginDecrement(t)) + Count(steps, BeginWait(t)) == Count(steps, Release(t)) + One(pc != Idle)
  }

  /** Every DecrementCount that has returned has decremented once, and every Wait has once
      seen the count at zero. */
  lemma {:induction false} CallsDoTheirWork(run: seq<State>, steps: seq<Step>, t: nat)
    requires IsTrace(run, steps) && t in run[|steps|].pcs
    ensures Balanced(run[|steps|].pcs[t], steps, t)
    decreases |steps|
  {
    hide Balanced, Apply, Enabled, Count;
    if steps != [] {
      var n := |steps| - 1;
      assert IsTrace(run[..n + 1], steps[..n]);
      assert Enabled(run[n], steps[n]) && run[n + 1] == Apply(run[n], steps[n]);
      KeepsThreads(run[n], steps[n]);
      CallsDoTheirWork(run[..n + 1], steps[..n], t);
      BalanceStep(run[n], steps, t);
    } else {
      InitBalanced(t);
    }
  }

  lemma InitBalanced(t: nat)
    ensures Balanced(Idle, [], t)
  {
  }

  lemma KeepsThreads(s: State, step: Step)
    requires Enabled(s, step)
    ensures Apply(s, step).pcs.Keys == s.pcs.Keys
  {
  }

  lemma BalanceStep(s: State, steps: seq<Step>, t: nat)
    requires steps != [] && t in s.pcs && Enabled(s, steps[|steps| - 1])
    requires Balanced(s.pcs[t], steps[..|steps| - 1], t)
    ensures t in Apply(s, steps[|steps| - 1]).pcs
    ensures Balanced(Apply(s, steps[|steps| - 1]).pcs[t], steps, t)
  {
  }

  /** With the mutex free, every thread that is in no call can begin either. */
  lemma CallsCanBegin(s: State, t: nat)
    requires Inv(s) && t in s.pcs
    ensures Enabled(s, BeginDecrement(t)) <==> s.m.owner.None? && s.pcs[t] == Idle
    ensures Enabled(s, BeginWait(t)) <==> s.m.owner.None? && s.pcs[t] == Idle
  {
  }

  /** Nor does the count decide who wakes up: any sleeper may, for no reason, or alone
      when a signal is sent, and the woken go on when the mutex is free. */
  lemma AnyoneMayWake(s: State, t: nat, u: nat)
    requires Inv(s) && u in s.m.waiting
    ensures Enabled(s, SpuriousWake(u))
    ensures s.m.owner == Some(t) && !s.m.signalled && AtUnlock(s, t) ==> Enabled(s, Signal(t, {u}))
    ensures t in s.m.woken && s.m.owner.None? ==> Enabled(s, Resume(t))
  {
    assert ThreadInv(s, u);
    if t in s.pcs {
      assert ThreadInv(s, t);
    }
  }

  /** Whatever the count, the thread in the mutex can go on. */
  lemma OwnerGoesOn(s: State) returns (step: Step)
    requires Inv(s) && s.m.owner.Some?
    ensures Enabled(s, step) && step.t == s.m.owner.value && !step.SpuriousWake? && !BeginsCall(step)
  {
    var u := s.m.owner.value;
    var woke: set<nat> := if s.m.signalAtUnlock then s.m.waiting else {};
    step := if s.m.signalled then Release(u)
            else match s.pcs[u]
              case Decrementing => Decrement(u)
              case Entering => EnterLoop(u)
              case InLoop => if s.count == 0 then Pass(u) else Sleep(u)
              case _ => Signal(u, woke);
  }

  // ----- Every Wait returns -----

  predicate BeginsCall(step: Step) {
    step.BeginDecrement? || step.BeginWait?
  }

  /** The count has reached zero and nobody is about to take it further down. */
  predicate SettledAtZero(s: State) {
    s.count == 0 && forall t | t in s.pcs :: s.pcs[t] != Decrementing
  }

  /** At zero all the decrements counted on have been made, and the count has settled
      unless one more is being made just now. */
  lemma ZeroSettles(s: State)
    requires Inv(s) && s.count == 0
    ensures |s.results| == s.initial
    ensures SettledAtZero(s) <==> !(s.m.owner.Some? && s.pcs[s.m.owner.value] == Decrementing)
  {
  }

  /** With the count at zero, blocked threads never hold each other up. */
  lemma ZeroNeverStuck(s: State, t: nat)
    requires Inv(s) && s.count == 0 && t in s.pcs && s.pcs[t] != Idle
    ensures exists step :: Enabled(s, step) && !step.SpuriousWake? && !BeginsCall(step)
  {
    if s.m.owner.Some? {
      var step := OwnerGoesOn(s);
    } else {
      assert t in s.m.waiting + s.m.woken;
      var u :| u in s.m.woken;
      assert Enabled(s, Resume(u));
    }
  }

  /** How far the thread in the mutex is from giving it back. */
  function OwnerRank(s: State): nat {
    if s.m.owner.None? || s.m.owner.value !in s.pcs then 0
    else if s.m.signalled then 1
    else match s.pcs[s.m.owner.value]
      case Entering => 4
      case InLoop => 3
      case _ => 2
  }

  function Measure(s: State): nat {
    5 * |s.m.waiting| + 4 * |s.m.woken| + OwnerRank(s)
  }

  lemma StaysSettled(s: State, step: Step)
    requires Inv(s) && SettledAtZero(s) && Enabled(s, step) && !BeginsCall(step)
    ensures !step.Decrement? && !step.Sleep? && SettledAtZero(Apply(s, step))
  {
  }

  lemma WokenMove(waiting: set<nat>, woken: set<nat>, woke: set<nat>)
    requires waiting !! woken && woke <= waiting
    ensures |waiting - woke| == |waiting| - |woke| && |woken + woke| == |woken| + |woke|
  {
  }

  lemma SpuriousWakeLowers(s: State, t: nat)
    requires CM.Inv(s.m) && Enabled(s, SpuriousWake(t))
    ensures Measure(Apply(s, SpuriousWake(t))) < Measure(s)
  {
    WokenMove(s.m.waiting, s.m.woken, {t});
  }

  lemma ResumeLowers(s: State, t: nat)
    requires CM.Inv(s.m) && Enabled(s, Resume(t))
    ensures Measure(Apply(s, Resume(t))) < Measure(s)
  {
    assert |s.m.woken - {t}| == |s.m.woken| - 1;
  }

  lemma SignalLowers(s: State, t: nat, woke: set<nat>)
    requires CM.Inv(s.m) && Enabled(s, Signal(t, woke))
    ensures Measure(Apply(s, Signal(t, woke))) < Measure(s)
  {
    WokenMove(s.m.waiting, s.m.woken, woke);
  }

  lemma OwnerLowers(s: State, step: Step)
    requires CM.Inv(s.m) && Enabled(s, step) && (step.EnterLoop? || step.Pass? || step.Release?)
    ensures Measure(Apply(s, step)) < Measure(s)
  {
  }

  /** From then on every step of the calls in progress, a spurious wake-up as well,
      lowers a measure: they all return. */
  lemma ZeroProgresses(s: State, step: Step)
    requires Inv(s) && SettledAtZero(s) && Enabled(s, step) && !BeginsCall(step)
    ensures SettledAtZero(Apply(s, step)) && Measure(Apply(s, step)) < Measure(s)
  {
    hide Enabled, Apply, Measure, SettledAtZero;
    StaysSettled(s, step);
    match step
    case SpuriousWake(t) => SpuriousWakeLowers(s, t);
    case Resume(t) => ResumeLowers(s, t);
    case Signal(t, woke) => SignalLowers(s, t, woke);
    case _ => OwnerLowers(s, step);
  }

  /** With nobody left to move, every call has returned. */
  lemma NoStepMeansAllReturned(s: State)
    requires Inv(s) && s.count == 0
    requires forall step :: Enabled(s, step) ==> BeginsCall(step)
    ensures forall t | t in s.pcs :: s.pcs[t] == Idle
  {
    forall t | t in s.pcs ensures s.pcs[t] == Idle {
      if s.pcs[t] != Idle {
        ZeroNeverStuck(s, t);
      }
    }
  }
}
