/**
 The blocking queues: an unbounded one whose consumers wait on a condition
 variable, and a bounded one whose producers wait on the same variable too.

 Both are one state machine; `bound` is `None` for the unbounded queue.  Signals
 are sent while the mutex is still held, wake at least one waiter if there is
 one, and waiters may wake for no reason.
 */
module ConcurrentQueue {
  import opened Wrappers
  import CM = CondMutex

  datatype Pc<D> =
    | Idle
    | PushLoop(x: D)     // in Push: holding the mutex, asleep or waking up
    | PopLoop            // in Pop: likewise
    | Trying             // in TryPop, holding the mutex
    | MustSignal         // queue changed, about to signal
    | Leaving            // about to unlock

  /** What a call of Pop or TryPop of a thread gave: None if TryPop returned false. */
  datatype Answer<D> = Answer(t: nat, value: Option<D>)

  datatype State<D> = State(
    bound: Option<int>,
    queue: seq<D>,
    owner: Option<nat>,
    waiting: set<nat>,
    woken: set<nat>,
    pcs: seq<Pc<D>>,
    pushed: seq<D>,
    answers: seq<Answer<D>>)   // of Pop and TryPop, in order

  datatype Step<D> =
    | BeginPush(t: nat, x: D)
    | BeginPop(t: nat)
    | BeginTryPop(t: nat)
    | Block(t: nat)
    | SpuriousWake(t: nat)
    | Resume(t: nat)
    | Put(t: nat)
    | Take(t: nat)
    | TryTake(t: nat)
    | Signal(t: nat, woke: set<nat>)
    | Release(t: nat)


  predicate Runs<D>(s: State<D>, t: nat) {
    s.owner == Some(t) && t < |s.pcs|
  }

  predicate Full<D>(s: State<D>) {
    s.bound == Some(|s.queue|)
  }

  /** No bound, or a negative one, which the size never equals. */
  predicate NeverFull<D>(s: State<D>) {
    s.bound.None? || s.bound.value < 0
  }

  predicate Enabled<D(==)>(s: State<D>, step: Step<D>) {
    match step
    case BeginPush(t, _) => s.owner.None? && t < |s.pcs| && s.pcs[t].Idle?
    case BeginPop(t) => s.owner.None? && t < |s.pcs| && s.pcs[t].Idle?
    case BeginTryPop(t) => s.bound.None? && s.owner.None? && t < |s.pcs| && s.pcs[t].Idle?
    case Block(t) =>
      Runs(s, t) && ((s.pcs[t].PushLoop? && Full(s)) || (s.pcs[t].PopLoop? && s.queue == []))
    case SpuriousWake(t) => t in s.waiting
    case Resume(t) => s.owner.None? && t in s.woken
    case Put(t) => Runs(s, t) && s.pcs[t].PushLoop? && !Full(s)
    case Take(t) => Runs(s, t) && s.pcs[t].PopLoop? && s.queue != []
    case TryTake(t) => Runs(s, t) && s.pcs[t].Trying?
    case Signal(t, woke) =>
      Runs(s, t) && s.pcs[t].MustSignal? && CM.SignalWakes(true, s.waiting, woke)
    case Release(t) => Runs(s, t) && s.pcs[t].Leaving?
  }

  function Pop<D>(s: State<D>, t: nat): State<D>
    requires s.queue != []
  {
    s.(queue := s.queue[1..], answers := s.answers + [Answer(t, Some(s.queue[0]))])
  }

  function Apply<D>(s: State<D>, step: Step<D>): State<D>
    requires Enabled(s, step)
  {
    match step
    case BeginPush(t, x) => s.(owner := Some(t), pcs := s.pcs[t := PushLoop(x)])
    case BeginPop(t) => s.(owner := Some(t), pcs := s.pcs[t := PopLoop])
    case BeginTryPop(t) => s.(owner := Some(t), pcs := s.pcs[t := Trying])
    case Block(t) => s.(owner := None, waiting := s.waiting + {t})
    case SpuriousWake(t) => s.(waiting := s.waiting - {t}, woken := s.woken + {t})
    case Resume(t) => s.(owner := Some(t), woken := s.woken - {t})
    case Put(t) =>
      s.(queue := s.queue + [s.pcs[t].x], pushed := s.pushed + [s.pcs[t].x],
         pcs := s.pcs[t := MustSignal])
    // Only the bounded Pop signals: its producers may be waiting.
    case Take(t) => Pop(s, t).(pcs := s.pcs[t := if s.bound.Some? then MustSignal else Leaving])
    case TryTake(t) =>
      (if s.queue == [] then s.(answers := s.answers + [Answer(t, None)]) else Pop(s, t)).(pcs := s.pcs[t := Leaving])
    case Signal(t, woke) =>
      s.(waiting := s.waiting - woke, woken := s.woken + woke, pcs := s.pcs[t := Leaving])
    case Release(t) => s.(owner := None, pcs := s.pcs[t := Idle])
  }

  predicate Init<D(==)>(s: State<D>) {
    && s.queue == s.pushed == [] && s.answers == []
    && s.owner.None? && s.waiting == {} && s.woken == {}
    && forall t | 0 <= t < |s.pcs| :: s.pcs[t].Idle?
  }

  ghost predicate Next<D(!new)>(s: State<D>, s': State<D>) {
    exists step :: Enabled(s, step) && s' == Apply(s, step)
  }

  ghost predicate IsRun<D(!new)>(run: seq<State<D>>) {
    && |run| > 0
    && Init(run[0])
    && forall i | 0 <= i < |run| - 1 :: Next(run[i], run[i + 1])
  }

  ghost predicate Blocked<D>(s: State<D>, t: nat) {
    t in s.waiting + s.woken
  }

  ghost predicate Shape<D>(s: State<D>) {
    && s.waiting !! s.woken
    && (s.owner.Some? ==> s.owner.value < |s.pcs|)
    && (forall t: nat | Blocked(s, t) ::
          t < |s.pcs| && s.owner != Some(t) && (s.pcs[t].PopLoop? || (s.pcs[t].PushLoop? && !NeverFull(s))))
    && (forall t | 0 <= t < |s.pcs| && s.owner != Some(t) :: s.pcs[t].Idle? || Blocked(s, t))
    && (s.owner.Some? ==> !s.pcs[s.owner.value].Idle?)
  }

  /** Popped values followed by the queue are the pushed values, in order. */
  predicate Fifo<D(==)>(s: State<D>) {
    Popped(s.answers) + s.queue == s.pushed
  }

  /** The values returned, by Pop and by those calls of TryPop that returned true. */
  function Popped<D>(answers: seq<Answer<D>>): seq<D> {
    if answers == [] then [] else
    var (before, last) := (answers[..|answers| - 1], answers[|answers| - 1]);
    Popped(before) + if last.value.Some? then [last.value.value] else []
  }

  lemma PoppedLonger<D>(answers: seq<Answer<D>>, last: Answer<D>)
    ensures Popped(answers + [last]) == Popped(answers) + if last.value.Some? then [last.value.value] else []
  {
    assert (answers + [last])[..|answers|] == answers;
  }

  predicate Bounded<D>(s: State<D>) {
    s.bound.Some? && s.bound.value >= 0 ==> |s.queue| <= s.bound.value
  }

  /** The thread inside the mutex may owe a signal, or may itself be a signalled
      consumer about to take an item. */
  function Owed<D>(s: State<D>): nat {
    if s.owner.Some? && s.owner.value < |s.pcs|
       && (s.pcs[s.owner.value].MustSignal? || s.pcs[s.owner.value].PopLoop?) then 1 else 0
  }

  /** While anyone sleeps on a queue that is never full, each queued item has a woken
      consumer coming for it. */
  predicate ItemsAreClaimed<D>(s: State<D>) {
    NeverFull(s) && s.waiting != {} ==> |s.queue| <= |s.woken| + Owed(s)
  }

  ghost predicate Inv<D>(s: State<D>) {
    Shape(s) && Fifo(s) && Bounded(s) && ItemsAreClaimed(s)
  }

  lemma StepKeepsShape<D>(s: State<D>, step: Step<D>)
    requires Shape(s) && Enabled(s, step)
    ensures Shape(Apply(s, step))
  {
    var s' := Apply(s, step);
    forall t: nat | Blocked(s', t)
      ensures (Blocked(s, t) && s'.pcs[t] == s.pcs[t]) || step == Block(t)
    {
    }
  }

  lemma StepKeepsOrder<D>(s: State<D>, step: Step<D>)
    requires Fifo(s) && Bounded(s) && Enabled(s, step)
    ensures Fifo(Apply(s, step)) && Bounded(Apply(s, step))
  {
    hide Popped;
    if (step.Take? || step.TryTake?) && s.queue != [] {
      PopKeepsOrder(s.answers, s.queue, step.t);
    } else if step.TryTake? {
      PoppedLonger(s.answers, Answer(step.t, None));
      assert Popped(s.answers) + [] == Popped(s.answers);
    } else if step.Put? {
      var x := s.pcs[step.t].x;
      assert Popped(s.answers) + s.queue + [x] == Popped(s.answers) + (s.queue + [x]);
    }
  }

  lemma PopKeepsOrder<D>(answers: seq<Answer<D>>, queue: seq<D>, t: nat)
    requires queue != []
    ensures Popped(answers + [Answer(t, Some(queue[0]))]) + queue[1..] == Popped(answers) + queue
  {
    PoppedLonger(answers, Answer(t, Some(queue[0])));
    hide Popped;
    assert queue == [queue[0]] + queue[1..];
    assert Popped(answers) + [queue[0]] + queue[1..] == Popped(answers) + ([queue[0]] + queue[1..]);
  }

  lemma StepKeepsClaims<D>(s: State<D>, step: Step<D>)
    requires Shape(s) && ItemsAreClaimed(s) && Enabled(s, step)
    ensures ItemsAreClaimed(Apply(s, step))
  {
    if step.SpuriousWake? || step.Resume? || step.Signal? {
      WakeKeepsClaims(s, step);
    }
  }

  lemma WakeKeepsClaims<D>(s: State<D>, step: Step<D>)
    requires Shape(s) && ItemsAreClaimed(s) && Enabled(s, step)
    requires step.SpuriousWake? || step.Resume? || step.Signal?
    ensures ItemsAreClaimed(Apply(s, step))
  {
    match step
    case SpuriousWake(t) =>
      JoinSizes(s.woken, {t});
    case Resume(t) =>
      JoinSizes(s.woken - {t}, {t});
      assert Blocked(s, t) && s.woken - {t} + {t} == s.woken;
    case Signal(t, woke) =>
      JoinSizes(s.woken, woke);
  }

  lemma JoinSizes(a: set<nat>, b: set<nat>)
    requires a !! b
    ensures |a + b| == |a| + |b| && (b != {} ==> |b| >= 1)
  {
  }

  lemma {:induction false} RunKeepsInv<D(!new)>(run: seq<State<D>>, i: nat)
    requires IsRun(run) && i < |run|
    ensures Inv(run[i])
  {
    if i > 0 {
      RunKeepsInv(run, i - 1);
      assert Next(run[i - 1], run[i - 1 + 1]);
      var step: Step<D> :| Enabled(run[i - 1], step) && run[i] == Apply(run[i - 1], step);
      StepKeepsShape(run[i - 1], step);
      StepKeepsOrder(run[i - 1], step);
      StepKeepsClaims(run[i - 1], step);
    }
  }

  /** Over every run: values leave in the order they came, the bound is never
      exceeded, and with the mutex free the items of a queue that is never full
      number at most the signalled consumers as long as anyone sleeps. */
  lemma QueueIsSafe<D(!new)>(run: seq<State<D>>, i: nat)
    requires IsRun(run) && i < |run|
    ensures Fifo(run[i]) && Bounded(run[i])
    ensures NeverFull(run[i]) && run[i].owner.None? && run[i].waiting != {} ==>
              |run[i].queue| <= |run[i].woken|
  {
    RunKeepsInv(run, i);
  }

  // ----- What each call does -----

  /** TryPop returns false if and only if the queue is empty at its step, and otherwise
      the first value, which leaves the queue. */
  lemma TryPopTakesFirst<D>(s: State<D>, t: nat)
    requires Enabled(s, TryTake(t))
    ensures var s' := Apply(s, TryTake(t));
            && |s'.answers| == |s.answers| + 1 && s'.answers[..|s.answers|] == s.answers
            && s'.answers[|s.answers|].t == t
            && (s'.answers[|s.answers|].value.None? <==> s.queue == [])
            && (if s.queue == [] then s'.queue == []
                else [s'.answers[|s.answers|].value.value] + s'.queue == s.queue)
            && s'.pushed == s.pushed
  {
  }

  /** Pop returns the first value, which leaves the queue. */
  lemma PopTakesFirst<D>(s: State<D>, t: nat)
    requires Enabled(s, Take(t))
    ensures var s' := Apply(s, Take(t));
            && |s'.answers| == |s.answers| + 1 && s'.answers[..|s.answers|] == s.answers
            && s'.answers[|s.answers|].t == t && s'.answers[|s.answers|].value.Some?
            && [s'.answers[|s.answers|].value.value] + s'.queue == s.queue
            && s'.pushed == s.pushed
  {
  }

  /** A run together with the steps that were taken. */
  ghost predicate IsTrace<D>(run: seq<State<D>>, steps: seq<Step<D>>) {
    && |run| == |steps| + 1 && Init(run[0])
    && forall i | 0 <= i < |steps| :: Enabled(run[i], steps[i]) && run[i + 1] == Apply(run[i], steps[i])
  }

  /** What the latest call of Push by a thread was begun with. */
  function Argument<D>(steps: seq<Step<D>>, t: nat): Option<D> {
    if steps == [] then None else
    var last := steps[|steps| - 1];
    if last.BeginPush? && last.t == t then Some(last.x) else Argument(steps[..|steps| - 1], t)
  }

  /** A queue used by one thread at a time, with the answers it has given. */
  datatype Plain<D> = Plain(items: seq<D>, pushed: seq<D>, answers: seq<Answer<D>>)

  /** The plain queue after the same calls, each carried out in one go where its step on
      the queue is. */
  function InTurn<D>(steps: seq<Step<D>>): Plain<D> {
    if steps == [] then Plain([], [], []) else
    var (before, last) := (steps[..|steps| - 1], steps[|steps| - 1]);
    var q := InTurn(before);
    match last
    case Put(t) =>
      var x := Argument(before, t);
      if x.None? then q else q.(items := q.items + [x.value], pushed := q.pushed + [x.value])
    case Take(t) => PlainPop(q, t)
    case TryTake(t) => PlainPop(q, t)
    case _ => q
  }

  function PlainPop<D>(q: Plain<D>, t: nat): Plain<D> {
    if q.items == [] then q.(answers := q.answers + [Answer(t, None)])
    else q.(items := q.items[1..], answers := q.answers + [Answer(t, Some(q.items[0]))])
  }

  /** Whatever the interleaving, the queue, what was pushed and what was answered are
      those of a plain queue. */
  lemma {:induction false} CallsHappenInTurn<D>(run: seq<State<D>>, steps: seq<Step<D>>)
    requires IsTrace(run, steps)
    ensures var (s, q) := (run[|steps|], InTurn(steps));
            && s.queue == q.items && s.pushed == q.pushed && s.answers == q.answers
            && forall t | 0 <= t < |s.pcs| && s.pcs[t].PushLoop? :: Argument(steps, t) == Some(s.pcs[t].x)
    decreases |steps|
  {
    if steps != [] {
      var n := |steps| - 1;
      assert IsTrace(run[..n + 1], steps[..n]);
      CallsHappenInTurn(run[..n + 1], steps[..n]);
      assert Enabled(run[n], steps[n]) && run[n + 1] == Apply(run[n], steps[n]);
    }
  }

  /** A queue of any bound may be used by any number of threads. */
  lemma AnyQueue<D>(bound: Option<int>, threads: nat) returns (s: State<D>)
    ensures Init(s) && s.bound == bound && |s.pcs| == threads && IsTrace([s], [])
  {
    s := State(bound, [], None, {}, {}, seq(threads, _ => Idle), [], []);
  }

  datatype Event = BegunPush | BegunPop | BegunTryPop | DonePut | DoneTake | DoneTry | Signalled | Returned

  predicate Is<D>(step: Step<D>, t: nat, e: Event) {
    match step
    case BeginPush(u, _) => u == t && e.BegunPush?
    case BeginPop(u) => u == t && e.BegunPop?
    case BeginTryPop(u) => u == t && e.BegunTryPop?
    case Put(u) => u == t && e.DonePut?
    case Take(u) => u == t && e.DoneTake?
    case TryTake(u) => u == t && e.DoneTry?
    case Signal(u, _) => u == t && e.Signalled?
    case Release(u) => u == t && e.Returned?
    case _ => false
  }

  function Count<D>(steps: seq<Step<D>>, t: nat, e: Event): nat {
    if steps == [] then 0
    else Count(steps[..|steps| - 1], t, e) + if Is(steps[|steps| - 1], t, e) then 1 else 0
  }

  /** Every call takes its step on the queue once, and then returns: a thread has taken
      as many as it has begun calls, but for the one it is in.  Every Push signals once, and
      so does every Pop of the bounded queue, but no other call. */
  lemma {:induction false} CallsTakeOneStep<D>(run: seq<State<D>>, steps: seq<Step<D>>, t: nat)
    requires IsTrace(run, steps) && t < |run[|steps|].pcs|
    ensures Balanced(run[|steps|].pcs[t], run[|steps|].bound.Some?, steps, t)
    decreases |steps|
  {
    if steps != [] {
      var n := |steps| - 1;
      assert IsTrace(run[..n + 1], steps[..n]);
      assert Enabled(run[n], steps[n]) && run[n + 1] == Apply(run[n], steps[n]);
      CallsTakeOneStep(run[..n + 1], steps[..n], t);
      assert steps == steps[..n] + [steps[n]];
      BalanceStep(run[n], steps[n], steps[..n], t);
    }
  }

  predicate Balanced<D>(pc: Pc<D>, bounded: bool, steps: seq<Step<D>>, t: nat) {
    && Count(steps, t, DonePut) + (if bounded then Count(steps, t, DoneTake) else 0)
       == Count(steps, t, Signalled) + One(pc.MustSignal?)
    && Count(steps, t, BegunPush) == Count(steps, t, DonePut) + One(pc.PushLoop?)
    && Count(steps, t, BegunPop) == Count(steps, t, DoneTake) + One(pc.PopLoop?)
    && Count(steps, t, BegunTryPop) == Count(steps, t, DoneTry) + One(pc.Trying?)
    && Count(steps, t, BegunPush) + Count(steps, t, BegunPop) + Count(steps, t, BegunTryPop)
       == Count(steps, t, Returned) + One(!pc.Idle?)
  }

  lemma CountLonger<D>(steps: seq<Step<D>>, step: Step<D>, t: nat, e: Event)
    ensures Count(steps + [step], t, e) == Count(steps, t, e) + One(Is(step, t, e))
  {
    assert (steps + [step])[..|steps|] == steps;
  }

  lemma BalanceStep<D>(s: State<D>, step: Step<D>, before: seq<Step<D>>, t: nat)
    requires t < |s.pcs| && Enabled(s, step) && Balanced(s.pcs[t], s.bound.Some?, before, t)
    ensures Balanced(Apply(s, step).pcs[t], s.bound.Some?, before + [step], t)
  {
    CountLonger(before, step, t, BegunPush);
    CountLonger(before, step, t, DonePut);
    CountLonger(before, step, t, BegunPop);
    CountLonger(before, step, t, DoneTake);
    CountLonger(before, step, t, BegunTryPop);
    CountLonger(before, step, t, DoneTry);
    CountLonger(before, step, t, Signalled);
    CountLonger(before, step, t, Returned);
    hide Count;
  }

  // ----- Calls come to an end -----

  lemma {:induction false} AtMost(threads: set<nat>, n: nat)
    requires forall t | t in threads :: t < n
    ensures |threads| <= n
  {
    if n > 0 {
      AtMost(threads - {n - 1}, n - 1);
    }
  }

  function RunningRank<D>(s: State<D>): nat {
    2 * |s.pcs| + 3
  }

  function OwnerRank<D>(s: State<D>): nat {
    if s.owner.None? || s.owner.value >= |s.pcs| then 0
    else match s.pcs[s.owner.value]
      case Leaving => 1
      case MustSignal => 2 * |s.pcs| + 2
      case Trying => 2
      case _ => RunningRank(s)
  }

  function Measure<D>(s: State<D>): nat {
    Resting(RunningRank(s), |s.waiting|, |s.woken|) + OwnerRank(s)
  }

  /** A sleeper counts a little less than a running thread, a woken one a little more. */
  function Resting(rank: nat, waiting: nat, woken: nat): nat {
    (if rank == 0 then 0 else (rank - 1) * waiting) + (rank + 1) * woken
  }

  /** The thread in the mutex can always go on. */
  lemma OwnerGoesOn<D>(s: State<D>) returns (step: Step<D>)
    requires Shape(s) && s.owner.Some?
    ensures Enabled(s, step) && s.owner == Some(step.t) && !step.SpuriousWake?
  {
    var t := s.owner.value;
    match s.pcs[t]
    case PushLoop(_) => step := if Full(s) then Block(t) else Put(t);
    case PopLoop => step := if s.queue == [] then Block(t) else Take(t);
    case Trying => step := TryTake(t);
    case MustSignal => step := Signal(t, s.waiting);
    case _ => step := Release(t);
  }

  /** With the mutex free, the woken threads can, and any call can begin. */
  lemma OthersGoOn<D>(s: State<D>, t: nat, x: D)
    requires Shape(s) && s.owner.None?
    ensures t in s.woken ==> Enabled(s, Resume(t))
    ensures t < |s.pcs| && s.pcs[t].Idle? ==>
              Enabled(s, BeginPush(t, x)) && Enabled(s, BeginPop(t)) && (s.bound.None? <==> Enabled(s, BeginTryPop(t)))
  {
  }

  /** Any sleeper may wake up, for no reason, or alone when a signal is sent. */
  lemma AnyoneMayWake<D>(s: State<D>, t: nat, u: nat)
    requires u in s.waiting
    ensures Enabled(s, SpuriousWake(u))
    ensures Runs(s, t) && s.pcs[t].MustSignal? ==> Enabled(s, Signal(t, {u}))
  {
  }

  predicate BeginsCall<D>(step: Step<D>) {
    step.BeginPush? || step.BeginPop? || step.BeginTryPop?
  }

  /** Every step but a spurious wake-up lowers a measure as long as no call begins: the
      calls in progress return or come to sleep. */
  lemma CallsEnd<D>(s: State<D>, step: Step<D>)
    requires Shape(s) && Enabled(s, step) && !BeginsCall(step) && !step.SpuriousWake?
    ensures Measure(Apply(s, step)) < Measure(s)
  {
    hide Measure;
    if step.Block? {
      BlockLowers(s, step.t);
    } else if step.Resume? {
      ResumeLowers(s, step.t);
    } else if step.Signal? {
      SignalLowers(s, step.t, step.woke);
    } else {
      OwnStepLowers(s, step);
    }
  }

  lemma OwnStepLowers<D>(s: State<D>, step: Step<D>)
    requires Enabled(s, step) && (step.Put? || step.Take? || step.TryTake? || step.Release?)
    ensures Measure(Apply(s, step)) < Measure(s)
  {
    hide Resting;
  }

  lemma BlockLowers<D>(s: State<D>, t: nat)
    requires Shape(s) && Enabled(s, Block(t))
    ensures Measure(Apply(s, Block(t))) < Measure(s)
  {
    hide Resting;
    assert !Blocked(s, t) && |s.waiting + {t}| == |s.waiting| + 1;
    OneSleeps(RunningRank(s), |s.waiting|, |s.woken|);
  }

  lemma ResumeLowers<D>(s: State<D>, t: nat)
    requires Shape(s) && Enabled(s, Resume(t))
    ensures Measure(Apply(s, Resume(t))) < Measure(s)
  {
    hide Resting;
    assert Blocked(s, t) && |s.woken - {t}| == |s.woken| - 1;
    OneWakes(RunningRank(s), |s.waiting|, |s.woken| - 1);
  }

  lemma SignalLowers<D>(s: State<D>, t: nat, woke: set<nat>)
    requires Shape(s) && Enabled(s, Signal(t, woke))
    ensures Measure(Apply(s, Signal(t, woke))) < Measure(s)
  {
    hide Resting;
    FewWake(s, woke);
    WokenMove(s.waiting, s.woken, woke);
    hide Shape;
    SignalSum(RunningRank(s), |s.waiting|, |s.woken|, |woke|);
    var s' := Apply(s, Signal(t, woke));
    assert OwnerRank(s) == 2 * |s.pcs| + 2 && OwnerRank(s') == 1 && RunningRank(s') == RunningRank(s);
    hide OwnerRank, RunningRank, Apply, Enabled;
  }

  lemma FewWake<D>(s: State<D>, woke: set<nat>)
    requires Shape(s) && woke <= s.waiting
    ensures |woke| <= |s.pcs| && |woke| <= |s.waiting|
  {
    assert forall u | u in woke :: Blocked(s, u);
    AtMost(woke, |s.pcs|);
    assert |s.waiting - woke| + |woke| == |s.waiting|;
  }

  lemma OneSleeps(rank: nat, waiting: nat, woken: nat)
    requires rank > 0
    ensures Resting(rank, waiting + 1, woken) == Resting(rank, waiting, woken) + rank - 1
  {
  }

  lemma OneWakes(rank: nat, waiting: nat, woken: nat)
    ensures Resting(rank, waiting, woken + 1) == Resting(rank, waiting, woken) + rank + 1
  {
  }

  lemma WokenMove(waiting: set<nat>, woken: set<nat>, woke: set<nat>)
    requires waiting !! woken && woke <= waiting
    ensures |waiting - woke| == |waiting| - |woke| && |woken + woke| == |woken| + |woke|
  {
  }

  lemma SignalSum(rank: nat, waiting: nat, woken: nat, woke: nat)
    requires woke <= waiting && rank > 0
    ensures Resting(rank, waiting - woke, woken + woke) == Resting(rank, waiting, woken) + 2 * woke
  {
    assert (rank - 1) * (waiting - woke) == (rank - 1) * waiting - (rank - 1) * woke;
    assert (rank + 1) * (woken + woke) == (rank + 1) * woken + (rank + 1) * woke;
    assert (rank + 1) * woke == (rank - 1) * woke + 2 * woke;
  }
}
