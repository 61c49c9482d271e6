/**
 When the blocking queues can strand a thread: leave it asleep with nothing in its way
 and nobody awake to rouse it.  Producers and consumers share one condition variable,
 and a signal meant for one kind can go to the other; whether that can end badly
 depends on the bound and the number of threads alone.
 */
module QueueStranding {
  import opened Wrappers
  import opened ConcurrentQueue
  import opened QueueTally
  import CM = CondMutex

  /** Nobody is awake, and a sleeping producer has a place to put its item or a sleeping
      consumer an item to take. */
  ghost predicate Stranded<D>(s: State<D>) {
    && s.owner.None? && s.woken == {}
    && exists t: nat | t in s.waiting && t < |s.pcs| ::
         (s.pcs[t].PushLoop? && !Full(s)) || (s.pcs[t].PopLoop? && s.queue != [])
  }

  /** Some run of `n` threads on a queue of this bound strands one of them. */
  ghost predicate CanStrand<D(!new)>(bound: Option<int>, n: nat) {
    exists run: seq<State<D>> ::
      IsRun(run) && run[|run| - 1].bound == bound && |run[|run| - 1].pcs| == n && Stranded(run[|run| - 1])
  }

  /** No bound or one without room, too few threads to fill the queue and keep two
      asleep, or just as many on a queue of size two or more. */
  predicate NeverStrands(bound: Option<int>, n: nat) {
    bound.None? || bound.value <= 0 || n <= bound.value + 1 || (bound.value >= 2 && n == bound.value + 2)
  }

  // ----- Counting threads -----

  function Poppers<D>(pcs: seq<Pc<D>>, threads: set<nat>): set<nat> {
    set t | t in threads && t < |pcs| && pcs[t].PopLoop?
  }

  function Pushers<D>(pcs: seq<Pc<D>>, threads: set<nat>): set<nat> {
    set t | t in threads && t < |pcs| && pcs[t].PushLoop?
  }

  function RoleOf<D>(s: State<D>): Role {
    if s.owner.None? || s.owner.value >= |s.pcs| then Nobody
    else match s.pcs[s.owner.value]
      case PushLoop(_) => Pusher
      case PopLoop => Popper
      case MustSignal => Signaller
      case _ => Leaver
  }

  function TallyOf<D>(s: State<D>): Tally {
    Tally(|s.queue|, RoleOf(s),
          |Poppers(s.pcs, s.waiting)|, |Pushers(s.pcs, s.waiting)|,
          |Poppers(s.pcs, s.woken)|, |Pushers(s.pcs, s.woken)|)
  }

  lemma CountsElsewhere<D>(pcs: seq<Pc<D>>, t: nat, pc: Pc<D>, threads: set<nat>)
    requires t < |pcs| && t !in threads
    ensures Poppers(pcs[t := pc], threads) == Poppers(pcs, threads)
    ensures Pushers(pcs[t := pc], threads) == Pushers(pcs, threads)
  {
  }

  lemma CountsJoin<D>(pcs: seq<Pc<D>>, a: set<nat>, b: set<nat>)
    requires a !! b
    ensures |Poppers(pcs, a + b)| == |Poppers(pcs, a)| + |Poppers(pcs, b)|
    ensures |Pushers(pcs, a + b)| == |Pushers(pcs, a)| + |Pushers(pcs, b)|
  {
    assert Poppers(pcs, a + b) == Poppers(pcs, a) + Poppers(pcs, b);
    assert Pushers(pcs, a + b) == Pushers(pcs, a) + Pushers(pcs, b);
  }

  lemma CountsOfOne<D>(pcs: seq<Pc<D>>, t: nat)
    requires t < |pcs|
    ensures |Poppers(pcs, {t})| == One(pcs[t].PopLoop?) && |Pushers(pcs, {t})| == One(pcs[t].PushLoop?)
  {
    assert Poppers(pcs, {t}) == if pcs[t].PopLoop? then {t} else {};
    assert Pushers(pcs, {t}) == if pcs[t].PushLoop? then {t} else {};
  }

  /** Moving one thread into a set, or out of it. */
  lemma CountsAdd<D>(pcs: seq<Pc<D>>, threads: set<nat>, t: nat)
    requires t < |pcs| && t !in threads
    ensures |Poppers(pcs, threads + {t})| == |Poppers(pcs, threads)| + One(pcs[t].PopLoop?)
    ensures |Pushers(pcs, threads + {t})| == |Pushers(pcs, threads)| + One(pcs[t].PushLoop?)
  {
    CountsJoin(pcs, threads, {t});
    CountsOfOne(pcs, t);
  }

  lemma CountsRemove<D>(pcs: seq<Pc<D>>, threads: set<nat>, t: nat)
    requires t < |pcs| && t in threads
    ensures |Poppers(pcs, threads - {t})| == |Poppers(pcs, threads)| - One(pcs[t].PopLoop?)
    ensures |Pushers(pcs, threads - {t})| == |Pushers(pcs, threads)| - One(pcs[t].PushLoop?)
  {
    CountsAdd(pcs, threads - {t}, t);
    assert threads - {t} + {t} == threads;
  }

  /** Sleepers are producers or consumers. */
  lemma CountsAll<D>(pcs: seq<Pc<D>>, threads: set<nat>)
    requires forall t | t in threads :: t < |pcs| && (pcs[t].PopLoop? || pcs[t].PushLoop?)
    ensures |Poppers(pcs, threads)| + |Pushers(pcs, threads)| == |threads|
  {
    assert threads == Poppers(pcs, threads) + Pushers(pcs, threads);
  }

  function Below(n: nat): (threads: set<nat>)
    ensures forall t: nat :: t in threads <==> t < n
  {
    if n == 0 then {} else Below(n - 1) + {n - 1}
  }

  // ----- Steps are moves of the tally -----

  /** TryPop belongs to the unbounded queue. */
  predicate NoneTries<D(==)>(s: State<D>) {
    s.bound.Some? ==> forall t | 0 <= t < |s.pcs| :: s.pcs[t] != Trying
  }

  lemma TallyFits<D>(s: State<D>)
    requires Shape(s) && Bounded(s) && s.bound.Some? && s.bound.value >= 0
    ensures Fits(s.bound.value, |s.pcs|, TallyOf(s))
  {
    var owner := if s.owner.Some? then {s.owner.value} else {};
    assert forall t | t in s.waiting + s.woken :: Blocked(s, t);
    CountsAll(s.pcs, s.waiting);
    CountsAll(s.pcs, s.woken);
    AtMost(s.waiting + s.woken + owner, |s.pcs|);
    assert |s.waiting + s.woken + owner| == |s.waiting| + |s.woken| + |owner|;
  }

  /** Sleepers and woken threads are not touched by what the owner does. */
  lemma OwnStepMoves<D>(s: State<D>, step: Step<D>)
    requires Shape(s) && NoneTries(s) && s.bound.Some? && Enabled(s, step)
    requires step.BeginPush? || step.BeginPop? || step.Put? || step.Take? || step.Release?
    ensures Moves(s.bound.value, TallyOf(s), TallyOf(Apply(s, step)))
  {
    var t := step.t;
    assert !Blocked(s, t);
    CountsElsewhere(s.pcs, t, Apply(s, step).pcs[t], s.waiting);
    CountsElsewhere(s.pcs, t, Apply(s, step).pcs[t], s.woken);
  }

  lemma WaitStepMoves<D>(s: State<D>, step: Step<D>)
    requires Shape(s) && s.bound.Some? && Enabled(s, step)
    requires step.Block? || step.SpuriousWake? || step.Resume?
    ensures Moves(s.bound.value, TallyOf(s), TallyOf(Apply(s, step)))
  {
    var t := step.t;
    match step
    case Block(_) =>
      assert !Blocked(s, t);
      CountsAdd(s.pcs, s.waiting, t);
    case SpuriousWake(_) =>
      assert Blocked(s, t);
      CountsRemove(s.pcs, s.waiting, t);
      CountsAdd(s.pcs, s.woken, t);
    case Resume(_) =>
      assert Blocked(s, t);
      CountsRemove(s.pcs, s.woken, t);
  }

  lemma SignalMoves<D>(s: State<D>, t: nat, woke: set<nat>)
    requires Shape(s) && s.bound.Some? && Enabled(s, Signal(t, woke))
    ensures Moves(s.bound.value, TallyOf(s), TallyOf(Apply(s, Signal(t, woke))))
  {
    assert !Blocked(s, t);
    assert forall u | u in s.waiting :: Blocked(s, u);
    SignalledTally(s, Apply(s, Signal(t, woke)), t, woke);
    assert RoleOf(s).Signaller?;
    hide Signals, TallyOf, Apply, Shape;
  }

  lemma SignalledTally<D>(s: State<D>, s': State<D>, t: nat, woke: set<nat>)
    requires s.owner == Some(t) && t < |s.pcs| && t !in s.waiting + s.woken
    requires s.waiting !! s.woken && woke <= s.waiting && (s.waiting != {} ==> woke != {})
    requires forall u | u in s.waiting :: u < |s.pcs| && (s.pcs[u].PopLoop? || s.pcs[u].PushLoop?)
    requires s' == s.(waiting := s.waiting - woke, woken := s.woken + woke, pcs := s.pcs[t := Leaving])
    ensures Signals(TallyOf(s), TallyOf(s'))
  {
    hide Poppers, Pushers;
    CountsElsewhere(s.pcs, t, Leaving, s.waiting - woke);
    CountsElsewhere(s.pcs, t, Leaving, s.woken + woke);
    SignalCounts(s.pcs, s.waiting, s.woken, woke);
  }

  lemma SignalCounts<D>(pcs: seq<Pc<D>>, waiting: set<nat>, woken: set<nat>, woke: set<nat>)
    requires waiting !! woken && woke <= waiting
    requires forall t | t in waiting :: t < |pcs| && (pcs[t].PopLoop? || pcs[t].PushLoop?)
    ensures |Poppers(pcs, waiting - woke)| + |Poppers(pcs, woken + woke)|
            == |Poppers(pcs, waiting)| + |Poppers(pcs, woken)|
    ensures |Pushers(pcs, waiting - woke)| + |Pushers(pcs, woken + woke)|
            == |Pushers(pcs, waiting)| + |Pushers(pcs, woken)|
    ensures |Poppers(pcs, waiting - woke)| <= |Poppers(pcs, waiting)|
    ensures |Pushers(pcs, waiting - woke)| <= |Pushers(pcs, waiting)|
    ensures |Poppers(pcs, waiting)| + |Pushers(pcs, waiting)| == |waiting|
    ensures |Poppers(pcs, waiting - woke)| + |Pushers(pcs, waiting - woke)| == |waiting| - |woke|
  {
    hide Poppers, Pushers;
    var asleep := waiting - woke;
    assert asleep + woke == waiting;
    CountsJoin(pcs, asleep, woke);
    CountsJoin(pcs, woken, woke);
    CountsAll(pcs, asleep);
    CountsAll(pcs, waiting);
  }

  lemma StepMoves<D>(s: State<D>, step: Step<D>)
    requires Shape(s) && NoneTries(s) && s.bound.Some? && Enabled(s, step)
    ensures Moves(s.bound.value, TallyOf(s), TallyOf(Apply(s, step)))
  {
    hide Moves, TallyOf;
    if step.Signal? {
      SignalMoves(s, step.t, step.woke);
    } else if step.Block? || step.SpuriousWake? || step.Resume? {
      WaitStepMoves(s, step);
    } else {
      OwnStepMoves(s, step);
    }
  }

  // ----- No run strands a thread -----

  /** What keeps the threads of a bounded queue going. */
  ghost predicate KeepsGoing<D>(s: State<D>) {
    && NoneTries(s)
    && (s.bound.Some? && s.bound.value > 0 && |s.pcs| <= SafeThreads(s.bound.value)
        ==> Safe(s.bound.value, TallyOf(s)))
  }

  lemma InitKeepsGoing<D>(s: State<D>)
    requires Init(s)
    ensures KeepsGoing(s)
  {
  }

  lemma StepKeepsGoing<D>(s: State<D>, step: Step<D>)
    requires Inv(s) && KeepsGoing(s) && Enabled(s, step)
    ensures KeepsGoing(Apply(s, step))
  {
    var s' := Apply(s, step);
    hide Safe, TallyOf, Moves, Fits;
    if s.bound.Some? && s.bound.value > 0 {
      StepKeepsShape(s, step);
      StepKeepsOrder(s, step);
      TallyFits(s);
      TallyFits(s');
      StepMoves(s, step);
      if |s.pcs| <= SafeThreads(s.bound.value) {
        MoveKeepsSafe(s.bound.value, |s.pcs|, TallyOf(s), TallyOf(s'));
      }
    }
  }

  lemma {:induction false} RunKeepsGoing<D(!new)>(run: seq<State<D>>, i: nat)
    requires IsRun(run) && i < |run|
    ensures KeepsGoing(run[i])
  {
    hide KeepsGoing, Inv, Enabled, Apply;
    if i == 0 {
      InitKeepsGoing(run[0]);
    } else {
      RunKeepsGoing(run, i - 1);
      RunKeepsInv(run, i - 1);
      assert Next(run[i - 1], run[i - 1 + 1]);
      var step: Step<D> :| Enabled(run[i - 1], step) && run[i] == Apply(run[i - 1], step);
      StepKeepsGoing(run[i - 1], step);
    }
  }

  /** With so few threads, no reachable state has a stranded one. */
  lemma NoneStranded<D(!new)>(run: seq<State<D>>, i: nat)
    requires IsRun(run) && i < |run| && NeverStrands(run[i].bound, |run[i].pcs|)
    ensures !Stranded(run[i])
  {
    var s := run[i];
    RunKeepsInv(run, i);
    RunKeepsGoing(run, i);
    if Stranded(s) {
      var t: nat :| t in s.waiting && t < |s.pcs| &&
        ((s.pcs[t].PushLoop? && !Full(s)) || (s.pcs[t].PopLoop? && s.queue != []));
      assert Blocked(s, t);
      if s.bound.Some? && s.bound.value > 0 {
        TallyFits(s);
        CountsRemove(s.pcs, s.waiting, t);
      }
    }
  }

  // ----- Whole calls, run without interruption -----

  ghost predicate Reachable<D(!new)>(s: State<D>) {
    exists run: seq<State<D>> :: IsRun(run) && run[|run| - 1] == s
  }

  lemma StepReaches<D(!new)>(s: State<D>, step: Step<D>) returns (s': State<D>)
    requires Reachable(s) && Enabled(s, step)
    ensures Reachable(s') && s' == Apply(s, step)
  {
    s' := Apply(s, step);
    var run: seq<State<D>> :| IsRun(run) && run[|run| - 1] == s;
    var longer := run + [s'];
    forall i | 0 <= i < |longer| - 1 ensures Next(longer[i], longer[i + 1]) {
      if i < |run| - 1 {
        assert Next(run[i], run[i + 1]);
      }
    }
    assert IsRun(longer);
  }

  /** A call of Push that finds room. */
  lemma PushReaches<D(!new)>(s: State<D>, t: nat, x: D, woke: set<nat>) returns (s': State<D>)
    requires Reachable(s) && s.owner.None? && !Full(s)
    requires t < |s.pcs| && s.pcs[t].Idle? && CM.SignalWakes(true, s.waiting, woke)
    ensures Reachable(s')
    ensures s' == s.(queue := s.queue + [x], pushed := s.pushed + [x],
                     waiting := s.waiting - woke, woken := s.woken + woke)
  {
    s' := StepReaches(s, BeginPush(t, x));
    s' := FinishPush(s', t, x, woke);
    assert s.pcs[t := PushLoop(x)][t := Idle] == s.pcs;
  }

  /** The rest of a Push that holds the mutex and has room. */
  lemma FinishPush<D(!new)>(s: State<D>, t: nat, x: D, woke: set<nat>) returns (s': State<D>)
    requires Reachable(s) && s.owner == Some(t) && !Full(s)
    requires t < |s.pcs| && s.pcs[t] == PushLoop(x) && CM.SignalWakes(true, s.waiting, woke)
    ensures Reachable(s')
    ensures s' == s.(owner := None, queue := s.queue + [x], pushed := s.pushed + [x],
                     waiting := s.waiting - woke, woken := s.woken + woke, pcs := s.pcs[t := Idle])
  {
    s' := StepReaches(s, Put(t));
    s' := StepReaches(s', Signal(t, woke));
    s' := StepReaches(s', Release(t));
    assert s.pcs[t := MustSignal][t := Leaving][t := Idle] == s.pcs[t := Idle];
  }

  /** A producer that waited gets the mutex and puts its item. */
  lemma WokenPushReaches<D(!new)>(s: State<D>, t: nat, x: D, woke: set<nat>) returns (s': State<D>)
    requires Reachable(s) && s.owner.None? && !Full(s) && t in s.woken
    requires t < |s.pcs| && s.pcs[t] == PushLoop(x) && CM.SignalWakes(true, s.waiting, woke)
    ensures Reachable(s')
    ensures s' == s.(queue := s.queue + [x], pushed := s.pushed + [x], pcs := s.pcs[t := Idle],
                     waiting := s.waiting - woke, woken := s.woken - {t} + woke)
  {
    s' := StepReaches(s, Resume(t));
    s' := FinishPush(s', t, x, woke);
  }

  /** A consumer that waited gets the mutex and takes an item. */
  lemma WokenPopReaches<D(!new)>(s: State<D>, t: nat, woke: set<nat>) returns (s': State<D>)
    requires Reachable(s) && s.owner.None? && s.queue != [] && t in s.woken && s.bound.Some?
    requires t < |s.pcs| && s.pcs[t] == PopLoop && CM.SignalWakes(true, s.waiting, woke)
    ensures Reachable(s')
    ensures s' == s.(queue := s.queue[1..], answers := s.answers + [Answer(t, Some(s.queue[0]))],
                     pcs := s.pcs[t := Idle], waiting := s.waiting - woke, woken := s.woken - {t} + woke)
  {
    s' := StepReaches(s, Resume(t));
    s' := StepReaches(s', Take(t));
    s' := StepReaches(s', Signal(t, woke));
    s' := StepReaches(s', Release(t));
    assert s.pcs[t := MustSignal][t := Leaving][t := Idle] == s.pcs[t := Idle];
  }

  /** A call that has to wait. */
  lemma WaitReaches<D(!new)>(s: State<D>, t: nat, call: Step<D>) returns (s': State<D>)
    requires Reachable(s) && s.owner.None? && t < |s.pcs| && s.pcs[t].Idle?
    requires (call.BeginPush? && call.t == t && Full(s)) || (call.BeginPop? && call.t == t && s.queue == [])
    ensures Reachable(s')
    ensures s' == s.(waiting := s.waiting + {t},
                     pcs := s.pcs[t := if call.BeginPush? then PushLoop(call.x) else PopLoop])
  {
    s' := StepReaches(s, call);
    s' := StepReaches(s', Block(t));
  }

  /** A woken thread that has to wait again. */
  lemma WaitAgainReaches<D(!new)>(s: State<D>, t: nat) returns (s': State<D>)
    requires Reachable(s) && s.owner.None? && t < |s.pcs| && t in s.woken
    requires (s.pcs[t].PushLoop? && Full(s)) || (s.pcs[t].PopLoop? && s.queue == [])
    ensures Reachable(s') && s' == s.(waiting := s.waiting + {t}, woken := s.woken - {t})
  {
    s' := StepReaches(s, Resume(t));
    s' := StepReaches(s', Block(t));
  }

  // ----- With more threads somebody can be stranded -----

  /** The first `k` threads sleep in Pop, and nothing else has happened. */
  lemma {:induction false} ConsumersSleep<D(!new)>(bound: int, n: nat, k: nat) returns (s: State<D>)
    requires k <= n
    ensures Reachable(s) && s.bound == Some(bound) && s.owner.None? && s.queue == [] && |s.pcs| == n
    ensures s.waiting == Below(k) && s.woken == {}
    ensures forall t | 0 <= t < n :: s.pcs[t] == if t < k then PopLoop else Idle
  {
    if k == 0 {
      s := State(Some(bound), [], None, {}, {}, seq(n, _ => Idle), [], []);
      assert IsRun([s]);
    } else {
      s := ConsumersSleep(bound, n, k - 1);
      s := WaitReaches(s, k - 1, BeginPop(k - 1));
    }
  }

  /** `bound + 1` consumers slept, and the producer after them has put `j` items, each
      of which woke one of them. */
  lemma {:induction false} QueueFills<D(!new)>(bound: int, n: nat, x: D, j: nat) returns (s: State<D>)
    requires j <= bound && bound + 2 <= n
    ensures Reachable(s) && s.bound == Some(bound) && s.owner.None? && |s.queue| == j && |s.pcs| == n
    ensures s.waiting == Below(bound + 1) - Below(j) && s.woken == Below(j)
    ensures forall t | 0 <= t < n :: s.pcs[t] == if t <= bound then PopLoop else Idle
  {
    if j == 0 {
      s := ConsumersSleep(bound, n, bound + 1);
    } else {
      s := QueueFills(bound, n, x, j - 1);
      s := PushReaches(s, bound + 1, x, {j - 1});
    }
  }

  /** The queue is full; a consumer and two producers sleep, and `k` consumers are
      waking up. */
  ghost predicate ThreeSleep<D>(s: State<D>, bound: int, x: D, k: nat) {
    && bound >= k && s.bound == Some(bound) && |s.queue| == bound && s.owner.None? && |s.pcs| >= bound + 3
    && s.waiting == {bound, bound + 1, bound + 2} && s.woken == Below(k)
    && s.pcs[bound] == PopLoop && s.pcs[bound + 1] == s.pcs[bound + 2] == PushLoop(x)
    && forall t | 0 <= t < k :: s.pcs[t] == PopLoop
  }

  /** One of them takes an item, and its signal goes to a producer; that one puts an
      item in the place, and its signal goes to the other producer, which finds the
      queue full again. */
  lemma OneGoes<D(!new)>(s: State<D>, bound: int, x: D, k: nat) returns (s': State<D>)
    requires Reachable(s) && k > 0 && ThreeSleep(s, bound, x, k)
    ensures Reachable(s') && ThreeSleep(s', bound, x, k - 1) && |s'.pcs| == |s.pcs|
  {
    hide Reachable;
    var (p, q) := (bound + 1, bound + 2);
    s' := WokenPopReaches(s, k - 1, {p});
    s' := WokenPushReaches(s', p, x, {q});
    s' := WaitReaches(s', p, BeginPush(p, x));
    s' := WaitAgainReaches(s', q);
  }

  lemma {:induction false} AllGo<D(!new)>(s: State<D>, bound: int, x: D, k: nat) returns (s': State<D>)
    requires Reachable(s) && ThreeSleep(s, bound, x, k)
    ensures Reachable(s') && ThreeSleep(s', bound, x, 0) && |s'.pcs| == |s.pcs|
    decreases k
  {
    s' := s;
    if k > 0 {
      s' := OneGoes(s, bound, x, k);
      s' := AllGo(s', bound, x, k - 1);
    }
  }

  /** With three threads more than the queue has places, a consumer can be left asleep
      beside a full queue. */
  lemma ConsumerStranded<D(!new)>(bound: int, n: nat, x: D) returns (s: State<D>)
    requires bound > 0 && n >= bound + 3
    ensures Reachable(s) && s.bound == Some(bound) && |s.pcs| == n && Stranded(s) && Full(s)
  {
    s := QueueFills(bound, n, x, bound);
    s := WaitReaches(s, bound + 1, BeginPush(bound + 1, x));
    s := WaitReaches(s, bound + 2, BeginPush(bound + 2, x));
    assert ThreeSleep(s, bound, x, bound);
    s := AllGo(s, bound, x, bound);
    assert bound in s.waiting && s.pcs[bound].PopLoop?;
  }

  /** On a queue of size one three threads are enough: a producer can be left asleep
      beside the empty queue. */
  lemma BoundedQueueCanLoseAWakeup<D(!new)>(n: nat, x: D) returns (s: State<D>)
    requires n >= 3
    ensures Reachable(s) && s.bound == Some(1) && |s.pcs| == n && Stranded(s)
    ensures s.queue == [] && 2 in s.waiting && s.pcs[2] == PushLoop(x)
    ensures forall t | 0 <= t < n :: s.pcs[t].Idle? || t in s.waiting
  {
    s := QueueFills(1, n, x, 1);
    s := WaitReaches(s, 2, BeginPush(2, x));
    s := WokenPopReaches(s, 0, {1});
    s := WaitAgainReaches(s, 1);
  }

  /** The condition is exact. */
  lemma StrandingIsExact<D(!new)>(bound: Option<int>, n: nat, x: D)
    ensures CanStrand<D>(bound, n) <==> !NeverStrands(bound, n)
  {
    forall run: seq<State<D>> | IsRun(run) && run[|run| - 1].bound == bound && |run[|run| - 1].pcs| == n
                                && NeverStrands(bound, n)
      ensures !Stranded(run[|run| - 1])
    {
      NoneStranded(run, |run| - 1);
    }
    if !NeverStrands(bound, n) {
      var b := bound.value;
      var s: State<D>;
      if b == 1 {
        s := BoundedQueueCanLoseAWakeup(n, x);
      } else {
        s := ConsumerStranded(b, n, x);
      }
      var run: seq<State<D>> :| IsRun(run) && run[|run| - 1] == s;
    }
  }
}
