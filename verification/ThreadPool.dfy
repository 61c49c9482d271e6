/**
 The worker pool: producers put closures into a FIFO queue guarded by a
 conditional mutex, workers take them, and the destructor sends one NULL per
 worker and joins them all.

 Every thread is a program counter over the shared state; a step is one atomic
 action of one thread, so a run is an arbitrary interleaving.  Producer 0 is the
 thread that runs the destructor.
 */
module ThreadPool {
  import opened Wrappers
  import CM = CondMutex

  datatype Item = Null | Task(id: nat)

  datatype Tid = Worker(w: nat) | Producer(p: nat)

  datatype WorkerPc =
    | NotStarted
    | AtGet                     // top of the loop, about to lock in Get
    | Locked                    // in LockWhen, before the wait loop
    | Checking                  // holds the mutex, about to evaluate the condition
    | Waiting
    | Woken
    | Took(item: Item)          // popped, about to unlock
    | Signalled(item: Item)     // inside Unlock, after the signal
    | Got(item: Item)           // Get returned
    | Exited

  datatype ProducerPc = Idle | Holding(item: Item) | Pushed | SignalSent

  datatype Phase = InUse | Stopping(sent: nat) | Joining(joined: nat) | Finished

  datatype State = State(
    queue: seq<Item>,
    owner: Option<Tid>,
    signalAtUnlock: bool,
    workers: seq<WorkerPc>,
    producers: seq<ProducerPc>,
    phase: Phase,
    // history of the whole run
    added: seq<Item>,
    taken: seq<Item>,
    executed: seq<Item>,
    nullsTaken: seq<nat>)       // per worker

  datatype Step =
    | Start(w: nat)
    | WorkerLock(w: nat)
    | EnterWaitLoop(w: nat)
    | Block(w: nat)
    | SpuriousWake(w: nat)
    | Resume(w: nat)
    | Take(w: nat)
    | WorkerSignal(w: nat, woke: set<nat>)
    | WorkerRelease(w: nat)
    | Execute(w: nat)
    | ProducerLock(p: nat, item: Item)
    | Push(p: nat)
    | ProducerSignal(p: nat, woke: set<nat>)
    | ProducerRelease(p: nat)
    | Destroy
    | BeginJoin
    | Join
    | Return

  function Sleepers(ws: seq<WorkerPc>): set<nat> {
    set w | 0 <= w < |ws| && ws[w] == Waiting
  }

  function Awake(ws: seq<WorkerPc>): set<nat> {
    set w | 0 <= w < |ws| && ws[w] == Woken
  }

  function WakeAll(ws: seq<WorkerPc>, woke: set<nat>): (r: seq<WorkerPc>)
    ensures |r| == |ws|
  {
    seq(|ws|, w requires 0 <= w < |ws| => if w in woke then Woken else ws[w])
  }

  predicate WorkerAt(s: State, w: nat, pc: WorkerPc) {
    w < |s.workers| && s.workers[w] == pc
  }

  predicate ProducerAt(s: State, p: nat, pc: ProducerPc) {
    p < |s.producers| && s.producers[p] == pc
  }

  /** Closures may be added while the pool is in use; the destructor adds NULLs. */
  predicate MayAdd(s: State, p: nat, item: Item) {
    match s.phase
    case InUse => item.Task?
    case Stopping(sent) => p == 0 && item == Null && sent < |s.workers|
    case _ => false
  }

  predicate Enabled(s: State, step: Step) {
    match step
    case Start(w) => s.phase.InUse? && WorkerAt(s, w, NotStarted)
    case WorkerLock(w) => s.owner.None? && WorkerAt(s, w, AtGet)
    case EnterWaitLoop(w) => WorkerAt(s, w, Locked)
    case Block(w) => WorkerAt(s, w, Checking) && s.queue == []
    case SpuriousWake(w) => WorkerAt(s, w, Waiting)
    case Resume(w) => s.owner.None? && WorkerAt(s, w, Woken)
    case Take(w) => WorkerAt(s, w, Checking) && s.queue != [] && w < |s.nullsTaken|
    case WorkerSignal(w, woke) =>
      && w < |s.workers| && s.workers[w].Took?
      && CM.SignalWakes(s.signalAtUnlock, Sleepers(s.workers), woke)
    case WorkerRelease(w) => w < |s.workers| && s.workers[w].Signalled?
    case Execute(w) => w < |s.workers| && s.workers[w].Got?
    case ProducerLock(p, item) =>
      s.owner.None? && ProducerAt(s, p, Idle) && MayAdd(s, p, item)
    case Push(p) => p < |s.producers| && s.producers[p].Holding?
    case ProducerSignal(p, woke) =>
      && ProducerAt(s, p, Pushed)
      && CM.SignalWakes(s.signalAtUnlock, Sleepers(s.workers), woke)
    case ProducerRelease(p) => ProducerAt(s, p, SignalSent)
    // No Add is in progress, and every worker was started (Join needs that).
    case Destroy =>
      && s.phase.InUse?
      && (forall p | 0 <= p < |s.producers| :: s.producers[p] == Idle)
      && NotStarted !in s.workers
    case BeginJoin =>
      && s.phase.Stopping? && s.phase.sent == |s.workers|
      && ProducerAt(s, 0, Idle)
    case Join => s.phase.Joining? && WorkerAt(s, s.phase.joined, Exited)
    case Return => s.phase.Joining? && s.phase.joined == |s.workers|
  }

  function Apply(s: State, step: Step): State
    requires Enabled(s, step)
  {
    match step
    case Start(w) => s.(workers := s.workers[w := AtGet])
    case WorkerLock(w) => s.(owner := Some(Worker(w)), workers := s.workers[w := Locked])
    case EnterWaitLoop(w) => s.(signalAtUnlock := true, workers := s.workers[w := Checking])
    case Block(w) => s.(owner := None, workers := s.workers[w := Waiting])
    case SpuriousWake(w) => s.(workers := s.workers[w := Woken])
    case Resume(w) => s.(owner := Some(Worker(w)), workers := s.workers[w := Checking])
    case Take(w) =>
      var item := s.queue[0];
      s.(queue := s.queue[1..],
         taken := s.taken + [item],
         nullsTaken := s.nullsTaken[w := s.nullsTaken[w] + if item.Null? then 1 else 0],
         workers := s.workers[w := Took(item)])
    case WorkerSignal(w, woke) =>
      s.(workers := WakeAll(s.workers, woke)[w := Signalled(s.workers[w].item)])
    case WorkerRelease(w) =>
      s.(owner := None, workers := s.workers[w := Got(s.workers[w].item)])
    case Execute(w) =>
      var item := s.workers[w].item;
      if item.Null? then s.(workers := s.workers[w := Exited])
      else s.(executed := s.executed + [item], workers := s.workers[w := AtGet])
    case ProducerLock(p, item) =>
      s.(owner := Some(Producer(p)), producers := s.producers[p := Holding(item)])
    case Push(p) =>
      var item := s.producers[p].item;
      s.(queue := s.queue + [item],
         added := s.added + [item],
         phase := if s.phase.Stopping? then Stopping(s.phase.sent + 1) else s.phase,
         producers := s.producers[p := Pushed])
    case ProducerSignal(p, woke) =>
      s.(workers := WakeAll(s.workers, woke), producers := s.producers[p := SignalSent])
    case ProducerRelease(p) => s.(owner := None, producers := s.producers[p := Idle])
    case Destroy => s.(phase := Stopping(0))
    case BeginJoin => s.(phase := Joining(0))
    case Join => s.(phase := Joining(s.phase.joined + 1))
    case Return => s.(phase := Finished)
  }

  ghost predicate Next(s: State, s': State) {
    exists step :: Enabled(s, step) && s' == Apply(s, step)
  }

  predicate Init(s: State) {
    && s.queue == s.added == s.taken == s.executed == []
    && s.owner.None? && !s.signalAtUnlock && s.phase.InUse?
    && |s.producers| > 0
    && |s.nullsTaken| == |s.workers|
    && (forall w | 0 <= w < |s.workers| :: s.workers[w] == NotStarted && s.nullsTaken[w] == 0)
    && (forall p | 0 <= p < |s.producers| :: s.producers[p] == Idle)
  }

  ghost predicate IsRun(run: seq<State>) {
    && |run| > 0
    && Init(run[0])
    && forall i | 0 <= i < |run| - 1 :: Next(run[i], run[i + 1])
  }

  // ----- Items in the hands of workers -----

  /** How many copies of `x` a worker has taken and not executed; an exited
      worker keeps its NULL. */
  function Hand(pc: WorkerPc, x: Item): nat {
    match pc
    case Took(y) => if x == y then 1 else 0
    case Signalled(y) => if x == y then 1 else 0
    case Got(y) => if x == y then 1 else 0
    case Exited => if x.Null? then 1 else 0
    case _ => 0
  }

  function Held(ws: seq<WorkerPc>, x: Item): nat {
    if ws == [] then 0 else Hand(ws[0], x) + Held(ws[1..], x)
  }

  lemma {:induction false} HeldUpdate(ws: seq<WorkerPc>, w: nat, pc: WorkerPc, x: Item)
    requires w < |ws|
    ensures Held(ws[w := pc], x) + Hand(ws[w], x) == Held(ws, x) + Hand(pc, x)
  {
    if w == 0 {
      assert ws[w := pc][1..] == ws[1..];
    } else {
      HeldUpdate(ws[1..], w - 1, pc, x);
      assert ws[w := pc][1..] == ws[1..][w - 1 := pc];
    }
  }

  lemma {:induction false} HeldSame(ws: seq<WorkerPc>, ws': seq<WorkerPc>, x: Item)
    requires |ws| == |ws'| && forall w | 0 <= w < |ws| :: Hand(ws[w], x) == Hand(ws'[w], x)
    ensures Held(ws, x) == Held(ws', x)
  {
    if ws != [] {
      HeldSame(ws[1..], ws'[1..], x);
    }
  }

  lemma {:induction false} HeldIncludes(ws: seq<WorkerPc>, w: nat, x: Item)
    requires w < |ws|
    ensures Hand(ws[w], x) <= Held(ws, x)
  {
    if w > 0 {
      HeldIncludes(ws[1..], w - 1, x);
    }
  }

  /** With all hands holding at most one NULL, one hand without it shows. */
  lemma {:induction false} HeldNullBound(ws: seq<WorkerPc>)
    ensures Held(ws, Null) <= |ws|
    ensures (exists w | 0 <= w < |ws| :: Hand(ws[w], Null) == 0) ==> Held(ws, Null) < |ws|
  {
    if ws != [] {
      HeldNullBound(ws[1..]);
      if w :| 0 < w < |ws| && Hand(ws[w], Null) == 0 {
        assert Hand(ws[1..][w - 1], Null) == 0;
      }
    }
  }

  lemma {:induction false} HeldAllExited(ws: seq<WorkerPc>, x: Item)
    requires forall w | 0 <= w < |ws| :: ws[w] == Exited
    ensures Held(ws, x) == if x.Null? then |ws| else 0
  {
    if ws != [] {
      HeldAllExited(ws[1..], x);
    }
  }

  lemma {:induction false} HeldNothing(ws: seq<WorkerPc>, x: Item)
    requires forall w | 0 <= w < |ws| :: Hand(ws[w], x) == 0
    ensures Held(ws, x) == 0
  {
    if ws != [] {
      HeldNothing(ws[1..], x);
    }
  }

  // ----- The pool as a client of the conditional mutex -----

  function Names(ws: set<nat>): set<Tid> {
    set w | w in ws :: Worker(w)
  }

  lemma NamesOfUpdate(ws: seq<WorkerPc>, w: nat, pc: WorkerPc)
    requires w < |ws|
    ensures Worker(w) in Names(Sleepers(ws)) <==> ws[w] == Waiting
    ensures Worker(w) in Names(Awake(ws)) <==> ws[w] == Woken
    ensures var (before, after) := (Names(Sleepers(ws)), Names(Sleepers(ws[w := pc])));
            if pc == Waiting then after == before + {Worker(w)}
            else if ws[w] == Waiting then after == before - {Worker(w)}
            else after == before
    ensures var (before, after) := (Names(Awake(ws)), Names(Awake(ws[w := pc])));
            if pc == Woken then after == before + {Worker(w)}
            else if ws[w] == Woken then after == before - {Worker(w)}
            else after == before
  {
    var u := ws[w := pc];
    assert Sleepers(u) == if pc == Waiting then Sleepers(ws) + {w} else Sleepers(ws) - {w};
    assert Awake(u) == if pc == Woken then Awake(ws) + {w} else Awake(ws) - {w};
  }

  lemma NamesOfWake(ws: seq<WorkerPc>, woke: set<nat>)
    requires woke <= Sleepers(ws)
    ensures Names(Sleepers(WakeAll(ws, woke))) == Names(Sleepers(ws)) - Names(woke)
    ensures Names(Awake(WakeAll(ws, woke))) == Names(Awake(ws)) + Names(woke)
    ensures Names(woke) <= Names(Sleepers(ws)) && (Names(woke) == {} <==> woke == {})
    ensures Names(Sleepers(ws)) == {} <==> Sleepers(ws) == {}
  {
    assert Sleepers(WakeAll(ws, woke)) == Sleepers(ws) - woke;
    assert Awake(WakeAll(ws, woke)) == Awake(ws) + woke;
    assert forall w | w in woke :: Worker(w) in Names(woke);
    assert forall w | w in Sleepers(ws) :: Worker(w) in Names(Sleepers(ws));
  }

  /** The mutex of the pool's queue, with the condition "queue not empty". */
  function MutexOf(s: State): CM.Mutex<Tid> {
    CM.Mutex(
      s.owner,
      Names(Sleepers(s.workers)),
      Names(Awake(s.workers)),
      s.signalAtUnlock,
      match s.owner
        case Some(Worker(w)) => w < |s.workers| && s.workers[w].Signalled?
        case Some(Producer(p)) => p < |s.producers| && s.producers[p].SignalSent?
        case None => false,
      s.queue != [])
  }

  predicate WorkerHolds(pc: WorkerPc) {
    pc.Locked? || pc.Checking? || pc.Took? || pc.Signalled?
  }

  predicate Exclusive(s: State) {
    && (forall w | 0 <= w < |s.workers| ::
          WorkerHolds(s.workers[w]) <==> s.owner == Some(Worker(w)))
    && (forall p | 0 <= p < |s.producers| ::
          s.producers[p] != Idle <==> s.owner == Some(Producer(p)))
    && (match s.owner
        case Some(Worker(w)) => w < |s.workers|
        case Some(Producer(p)) => p < |s.producers|
        case None => true)
    && (forall w | 0 <= w < |s.workers| ::
          s.workers[w].Checking? || s.workers[w].Waiting? || s.workers[w].Woken? ==> s.signalAtUnlock)
  }

  /** The mutex step a pool step performs, if any. */
  function MutexStep(s: State, step: Step): Option<CM.Step<Tid>>
    requires Enabled(s, step)
  {
    match step
    case WorkerLock(w) => Some(CM.Lock(Worker(w)))
    case EnterWaitLoop(w) => Some(CM.EnterWaitLoop(Worker(w)))
    case Block(w) => Some(CM.Block(Worker(w)))
    case SpuriousWake(w) => Some(CM.SpuriousWake(Worker(w)))
    case Resume(w) => Some(CM.Resume(Worker(w)))
    case Take(w) => Some(CM.Work(Worker(w), |s.queue| > 1))
    case WorkerSignal(w, woke) => Some(CM.Signal(Worker(w), Names(woke)))
    case WorkerRelease(w) => Some(CM.Release(Worker(w)))
    case ProducerLock(p, _) => Some(CM.Lock(Producer(p)))
    case Push(p) => Some(CM.Work(Producer(p), true))
    case ProducerSignal(p, woke) => Some(CM.Signal(Producer(p), Names(woke)))
    case ProducerRelease(p) => Some(CM.Release(Producer(p)))
    case _ => None
  }

  predicate IsProducerStep(step: Step) {
    step.ProducerLock? || step.Push? || step.ProducerSignal? || step.ProducerRelease?
  }

  lemma ProducerKeepsExclusive(s: State, step: Step)
    requires Exclusive(s) && Enabled(s, step) && IsProducerStep(step)
    ensures Exclusive(Apply(s, step))
  {
  }

  lemma SignalKeepsExclusive(s: State, w: nat, woke: set<nat>)
    requires Exclusive(s) && Enabled(s, WorkerSignal(w, woke))
    ensures Exclusive(Apply(s, WorkerSignal(w, woke)))
  {
  }

  predicate IsHandover(step: Step) {
    step.WorkerLock? || step.Resume? || step.Block? || step.WorkerRelease?
  }

  lemma HandoverKeepsExclusive(s: State, step: Step)
    requires Exclusive(s) && Enabled(s, step) && IsHandover(step)
    ensures Exclusive(Apply(s, step))
  {
  }

  lemma InsideKeepsExclusive(s: State, step: Step)
    requires Exclusive(s) && Enabled(s, step)
    requires !IsHandover(step) && !IsProducerStep(step) && !step.WorkerSignal?
    ensures Exclusive(Apply(s, step))
  {
  }

  lemma WorkerKeepsExclusive(s: State, step: Step)
    requires Exclusive(s) && Enabled(s, step) && !IsProducerStep(step)
    ensures Exclusive(Apply(s, step))
  {
    hide Exclusive, Enabled, Apply;
    if step.WorkerSignal? {
      SignalKeepsExclusive(s, step.w, step.woke);
    } else if IsHandover(step) {
      HandoverKeepsExclusive(s, step);
    } else {
      InsideKeepsExclusive(s, step);
    }
  }

  lemma StepKeepsExclusive(s: State, step: Step)
    requires Exclusive(s) && Enabled(s, step)
    ensures Exclusive(Apply(s, step))
  {
    if IsProducerStep(step) {
      ProducerKeepsExclusive(s, step);
    } else {
      WorkerKeepsExclusive(s, step);
    }
  }

  lemma SignalMovesNames(ws: seq<WorkerPc>, woke: set<nat>, w: nat, pc: WorkerPc)
    requires woke <= Sleepers(ws) && w < |ws| && w !in Sleepers(ws) && ws[w] != Woken
    requires pc != Waiting && pc != Woken
    ensures var ws' := WakeAll(ws, woke)[w := pc];
            && Names(Sleepers(ws')) == Names(Sleepers(ws)) - Names(woke)
            && Names(Awake(ws')) == Names(Awake(ws)) + Names(woke)
  {
    NamesOfWake(ws, woke);
    NamesOfUpdate(WakeAll(ws, woke), w, pc);
  }

  /** The step is a step of the conditional mutex, or leaves it alone. */
  predicate RefinesMutex(s: State, step: Step)
    requires Enabled(s, step)
  {
    match MutexStep(s, step)
    case None => MutexOf(Apply(s, step)) == MutexOf(s)
    case Some(m) => CM.Enabled(MutexOf(s), m) && MutexOf(Apply(s, step)) == CM.Apply(MutexOf(s), m)
  }

  lemma SignalRefinesMutex(s: State, step: Step)
    requires Exclusive(s) && Enabled(s, step) && (step.WorkerSignal? || step.ProducerSignal?)
    ensures RefinesMutex(s, step)
  {
    NamesOfWake(s.workers, step.woke);
    if step.WorkerSignal? {
      SignalMovesNames(s.workers, step.woke, step.w, Signalled(s.workers[step.w].item));
    }
  }

  lemma WaitRefinesMutex(s: State, step: Step)
    requires Exclusive(s) && Enabled(s, step)
    requires step.Block? || step.SpuriousWake? || step.Resume?
    ensures RefinesMutex(s, step)
  {
    NamesOfUpdate(s.workers, step.w, if step.Block? then Waiting else if step.Resume? then Checking else Woken);
  }

  lemma WorkRefinesMutex(s: State, step: Step)
    requires Exclusive(s) && Enabled(s, step)
    requires step.Start? || step.Take? || step.Execute? || step.WorkerRelease?
    ensures RefinesMutex(s, step)
  {
    NamesOfUpdate(s.workers, step.w, Apply(s, step).workers[step.w]);
  }

  lemma LockRefinesMutex(s: State, step: Step)
    requires Exclusive(s) && Enabled(s, step)
    requires step.WorkerLock? || step.EnterWaitLoop?
    ensures RefinesMutex(s, step)
  {
    NamesOfUpdate(s.workers, step.w, Apply(s, step).workers[step.w]);
  }

  /** Refinement: every pool step is a step of the conditional mutex, or none. */
  lemma StepRefinesMutex(s: State, step: Step)
    requires Exclusive(s) && Enabled(s, step)
    ensures RefinesMutex(s, step)
  {
    if step.WorkerSignal? || step.ProducerSignal? {
      SignalRefinesMutex(s, step);
    } else if step.Block? || step.SpuriousWake? || step.Resume? {
      WaitRefinesMutex(s, step);
    } else if step.Start? || step.Take? || step.Execute? || step.WorkerRelease? {
      WorkRefinesMutex(s, step);
    } else if step.WorkerLock? || step.EnterWaitLoop? {
      LockRefinesMutex(s, step);
    }
  }

  // ----- Where every item is -----

  predicate NullsLast(items: seq<Item>) {
    forall i, j | 0 <= i < j < |items| :: items[i].Null? ==> items[j].Null?
  }

  predicate OnlyDestructorActive(s: State) {
    && |s.producers| > 0
    && (forall p | 0 < p < |s.producers| :: s.producers[p] == Idle)
    && NotStarted !in s.workers
  }

  predicate PhaseInv(s: State) {
    match s.phase
    case InUse =>
      && Null !in s.added
      && forall p | 0 <= p < |s.producers| :: s.producers[p].Holding? ==> s.producers[p].item.Task?
    case Stopping(sent) =>
      && OnlyDestructorActive(s) && sent <= |s.workers|
      && multiset(s.added)[Null] == sent
      && (s.producers[0].Holding? ==> s.producers[0].item.Null? && sent < |s.workers|)
    case Joining(joined) =>
      && OnlyDestructorActive(s) && s.producers[0] == Idle
      && multiset(s.added)[Null] == |s.workers|
      && joined <= |s.workers|
      && forall w | 0 <= w < joined :: s.workers[w] == Exited
    case Finished =>
      && OnlyDestructorActive(s) && s.producers[0] == Idle
      && multiset(s.added)[Null] == |s.workers|
      && forall w | 0 <= w < |s.workers| :: s.workers[w] == Exited
  }

  /** First-in first-out, and every taken item is in one hand or was executed. */
  ghost predicate Conserved(s: State) {
    && s.taken + s.queue == s.added
    && Null !in s.executed
    && (s.workers == [] ==> s.executed == [])
    && forall x :: multiset(s.taken)[x] == Held(s.workers, x) + multiset(s.executed)[x]
  }

  predicate OneNullEach(s: State) {
    && |s.nullsTaken| == |s.workers|
    && forall w | 0 <= w < |s.workers| :: s.nullsTaken[w] == Hand(s.workers[w], Null)
  }

  ghost predicate Inv(s: State) {
    && |s.producers| > 0
    && Exclusive(s)
    && CM.Inv(MutexOf(s))
    && Conserved(s)
    && OneNullEach(s)
    && NullsLast(s.added)
    && PhaseInv(s)
  }

  lemma InitInv(s: State)
    requires Init(s)
    ensures Inv(s)
  {
    forall x ensures Held(s.workers, x) == 0 {
      HeldNothing(s.workers, x);
    }
  }

  predicate MovesWorkerOnly(step: Step) {
    step.Start? || step.WorkerLock? || step.EnterWaitLoop? || step.Block? || step.SpuriousWake?
    || step.Resume? || step.WorkerRelease?
  }

  lemma HeldAfterMove(s: State, step: Step, x: Item)
    requires Enabled(s, step) && MovesWorkerOnly(step)
    ensures Held(Apply(s, step).workers, x) == Held(s.workers, x)
  {
    HeldUpdate(s.workers, step.w, Apply(s, step).workers[step.w], x);
  }

  lemma HeldAfterSignal(s: State, step: Step, x: Item)
    requires Enabled(s, step) && (step.WorkerSignal? || step.ProducerSignal?)
    ensures Held(Apply(s, step).workers, x) == Held(s.workers, x)
  {
    HeldSame(s.workers, Apply(s, step).workers, x);
  }

  lemma TakeConserves(s: State, w: nat)
    requires Conserved(s) && Enabled(s, Take(w))
    ensures Conserved(Apply(s, Take(w)))
  {
    var s' := Apply(s, Take(w));
    forall x ensures multiset(s'.taken)[x] == Held(s'.workers, x) + multiset(s'.executed)[x] {
      HeldUpdate(s.workers, w, Took(s.queue[0]), x);
    }
    assert s.queue == [s.queue[0]] + s'.queue;
  }

  lemma HeldAfterExecute(s: State, w: nat, x: Item)
    requires Enabled(s, Execute(w))
    ensures var s' := Apply(s, Execute(w));
            Held(s'.workers, x) + multiset(s'.executed)[x] == Held(s.workers, x) + multiset(s.executed)[x]
  {
    var item := s.workers[w].item;
    if item.Null? {
      HeldUpdate(s.workers, w, Exited, x);
    } else {
      HeldUpdate(s.workers, w, AtGet, x);
      assert multiset(s.executed + [item]) == multiset(s.executed) + multiset{item};
    }
  }

  lemma ExecuteConserves(s: State, w: nat)
    requires Conserved(s) && Enabled(s, Execute(w))
    ensures Conserved(Apply(s, Execute(w)))
  {
    forall x { HeldAfterExecute(s, w, x); }
  }

  /** The items in hand are the same after any other step. */
  lemma OtherStepKeepsHeld(s: State, step: Step, x: Item)
    requires Enabled(s, step) && !step.Take? && !step.Execute?
    ensures Held(Apply(s, step).workers, x) == Held(s.workers, x)
  {
    if MovesWorkerOnly(step) {
      HeldAfterMove(s, step, x);
    } else if step.WorkerSignal? || step.ProducerSignal? {
      HeldAfterSignal(s, step, x);
    }
  }

  lemma OtherStepConserves(s: State, step: Step)
    requires Conserved(s) && Enabled(s, step) && !step.Take? && !step.Execute?
    ensures Conserved(Apply(s, step))
  {
    hide Held;
    forall x ensures Held(Apply(s, step).workers, x) == Held(s.workers, x) {
      OtherStepKeepsHeld(s, step, x);
    }
  }

  lemma StepConserves(s: State, step: Step)
    requires Conserved(s) && Enabled(s, step)
    ensures Conserved(Apply(s, step))
  {
    hide Conserved, Enabled, Apply;
    match step
    case Take(w) => TakeConserves(s, w);
    case Execute(w) => ExecuteConserves(s, w);
    case _ => OtherStepConserves(s, step);
  }

  lemma StepKeepsNullsLast(s: State, step: Step)
    requires PhaseInv(s) && NullsLast(s.added) && Enabled(s, step)
    ensures NullsLast(Apply(s, step).added)
  {
    if step.Push? && s.producers[step.p].item.Task? {
      assert s.phase.InUse?;
      assert forall x | x in s.added :: x.Task?;
    }
  }

  lemma TakeKeepsOneNull(s: State, w: nat)
    requires OneNullEach(s) && Enabled(s, Take(w))
    ensures OneNullEach(Apply(s, Take(w)))
  {
  }

  lemma StepKeepsOneNull(s: State, step: Step)
    requires OneNullEach(s) && Enabled(s, step)
    ensures OneNullEach(Apply(s, step))
  {
    if step.Take? {
      TakeKeepsOneNull(s, step.w);
    } else if !IsProducerStep(step) {
      WorkerKeepsHands(s, step);
    }
  }

  lemma WorkerKeepsHands(s: State, step: Step)
    requires Enabled(s, step) && !step.Take? && !IsProducerStep(step)
    ensures var s' := Apply(s, step);
            && s'.nullsTaken == s.nullsTaken && |s'.workers| == |s.workers|
            && forall w | 0 <= w < |s.workers| :: Hand(s'.workers[w], Null) == Hand(s.workers[w], Null)
  {
  }

  lemma WorkerStepKeepsExited(s: State, step: Step)
    requires Enabled(s, step)
    requires MovesWorkerOnly(step) || step.Take? || step.Execute? || step.WorkerSignal?
    ensures var s' := Apply(s, step);
            && s'.phase == s.phase && s'.added == s.added && s'.producers == s.producers
            && |s'.workers| == |s.workers|
            && (forall w | 0 <= w < |s.workers| && s.workers[w] == Exited :: s'.workers[w] == Exited)
            && (NotStarted !in s.workers ==> NotStarted !in s'.workers)
  {
    var s' := Apply(s, step);
    assert forall w | 0 <= w < |s'.workers| :: s'.workers[w] == NotStarted ==> s.workers[w] == NotStarted;
  }

  lemma WorkerStepKeepsPhase(s: State, step: Step)
    requires PhaseInv(s) && Enabled(s, step)
    requires MovesWorkerOnly(step) || step.Take? || step.Execute? || step.WorkerSignal?
    ensures PhaseInv(Apply(s, step))
  {
    WorkerStepKeepsExited(s, step);
    hide Apply, Enabled;
  }

  lemma ProducerStepKeepsPhase(s: State, step: Step)
    requires Exclusive(s) && PhaseInv(s) && |s.producers| > 0 && Enabled(s, step)
    requires IsProducerStep(step)
    ensures PhaseInv(Apply(s, step))
  {
    var s' := Apply(s, step);
    assert forall w | 0 <= w < |s.workers| && s.workers[w] == Exited :: s'.workers[w] == Exited;
    if NotStarted !in s.workers {
      assert forall w | 0 <= w < |s.workers| :: s.workers[w] != NotStarted;
      assert NotStarted !in s'.workers;
    }
  }

  lemma StepKeepsPhase(s: State, step: Step)
    requires Exclusive(s) && PhaseInv(s) && |s.producers| > 0 && Enabled(s, step)
    ensures PhaseInv(Apply(s, step))
  {
    if MovesWorkerOnly(step) || step.Take? || step.Execute? || step.WorkerSignal? {
      WorkerStepKeepsPhase(s, step);
    } else if IsProducerStep(step) {
      ProducerStepKeepsPhase(s, step);
    }
  }

  lemma StepKeepsInv(s: State, step: Step)
    requires Inv(s) && Enabled(s, step)
    ensures Inv(Apply(s, step))
  {
    StepKeepsExclusive(s, step);
    StepRefinesMutex(s, step);
    if MutexStep(s, step).Some? {
      CM.StepKeepsInv(MutexOf(s), MutexStep(s, step).value);
    }
    StepConserves(s, step);
    StepKeepsNullsLast(s, step);
    StepKeepsOneNull(s, step);
    StepKeepsPhase(s, step);
  }

  lemma {:induction false} RunKeepsInv(run: seq<State>, i: nat)
    requires IsRun(run) && i < |run|
    ensures Inv(run[i])
  {
    if i == 0 {
      InitInv(run[0]);
    } else {
      RunKeepsInv(run, i - 1);
      assert Next(run[i - 1], run[i - 1 + 1]);
      var step :| Enabled(run[i - 1], step) && run[i] == Apply(run[i - 1], step);
      StepKeepsInv(run[i - 1], step);
    }
  }

  // ----- What every run of the pool guarantees -----

  /** A worker sees its NULL only after every closure has left the queue. */
  lemma NullMeansNoClosureLeft(s: State, w: nat)
    requires Inv(s) && w < |s.workers| && Hand(s.workers[w], Null) > 0
    ensures forall x | x in s.queue :: x.Null?
  {
    HeldIncludes(s.workers, w, Null);
    assert multiset(s.taken)[Null] > 0;
    var i :| 0 <= i < |s.taken| && s.taken[i] == Null;
    forall j | 0 <= j < |s.queue| ensures s.queue[j].Null? {
      assert s.added[i] == Null && s.added[|s.taken| + j] == s.queue[j];
    }
  }

  /** When the destructor has returned: every worker took exactly one NULL and
      exited, and every closure was executed as often as it was added, unless the
      pool had no worker.  The queue is empty exactly when there was a worker or
      nothing was ever added. */
  lemma ShutdownIsComplete(run: seq<State>)
    requires IsRun(run) && run[|run| - 1].phase.Finished?
    ensures var s := run[|run| - 1];
            && |s.nullsTaken| == |s.workers|
            && (forall w | 0 <= w < |s.workers| :: s.workers[w] == Exited && s.nullsTaken[w] == 1)
            && (|s.workers| > 0 ==>
                  forall x: Item | x.Task? :: multiset(s.executed)[x] == multiset(s.added)[x])
            && (s.queue == [] <==> |s.workers| > 0 || s.added == [])
  {
    var s := run[|run| - 1];
    RunKeepsInv(run, |run| - 1);
    forall x ensures Held(s.workers, x) == if x.Null? then |s.workers| else 0 {
      HeldAllExited(s.workers, x);
    }
    if |s.workers| > 0 {
      assert multiset(s.added) == multiset(s.taken) + multiset(s.queue);
      NullMeansNoClosureLeft(s, 0);
      FirstIsCounted(s.queue);
    } else {
      FirstIsCounted(s.taken);
      assert s.taken + s.queue == s.queue;
    }
  }

  /** The states in which a pool without workers has one closure queued. */
  function Workerless(id: nat, owner: Option<Tid>, pc: ProducerPc, phase: Phase): State {
    State([Task(id)], owner, false, [], [pc], phase, [Task(id)], [], [], [])
  }

  lemma EmptyPoolAdds(id: nat) returns (run: seq<State>)
    ensures IsRun(run) && run[|run| - 1] == Workerless(id, None, Idle, InUse)
  {
    var c := Task(id);
    var s0 := State([], None, false, [], [Idle], InUse, [], [], [], []);
    var s1 := s0.(owner := Some(Producer(0)), producers := [Holding(c)]);
    assert [Idle][0 := Holding(c)] == [Holding(c)];
    run := Extend([s0], ProducerLock(0, c), s1);
    WorkerlessPut(id, s1);
    run := Extend(run, Push(0), Workerless(id, Some(Producer(0)), Pushed, InUse));
    run := Extend(run, ProducerSignal(0, {}), Workerless(id, Some(Producer(0)), SignalSent, InUse));
    run := Extend(run, ProducerRelease(0), Workerless(id, None, Idle, InUse));
  }

  lemma WorkerlessPut(id: nat, s: State)
    requires s == State([], Some(Producer(0)), false, [], [Holding(Task(id))], InUse, [], [], [], [])
    ensures var (pushed, signalled) := (Workerless(id, Some(Producer(0)), Pushed, InUse),
                                        Workerless(id, Some(Producer(0)), SignalSent, InUse));
            && Enabled(s, Push(0)) && Apply(s, Push(0)) == pushed
            && Enabled(pushed, ProducerSignal(0, {})) && Apply(pushed, ProducerSignal(0, {})) == signalled
            && Enabled(signalled, ProducerRelease(0))
            && Apply(signalled, ProducerRelease(0)) == Workerless(id, None, Idle, InUse)
  {
    assert [Holding(Task(id))][0 := Pushed] == [Pushed];
    assert [Pushed][0 := SignalSent] == [SignalSent] && [SignalSent][0 := Idle] == [Idle];
    assert WakeAll([], {}) == [];
  }

  /** A pool without workers leaves its closures in the queue. */
  lemma EmptyPoolKeepsClosures(id: nat) returns (run: seq<State>)
    ensures IsRun(run)
    ensures var s := run[|run| - 1];
            s.phase.Finished? && s.workers == [] && s.queue == [Task(id)] && s.executed == []
  {
    run := EmptyPoolAdds(id);
    run := Extend(run, Destroy, Workerless(id, None, Idle, Stopping(0)));
    run := Extend(run, BeginJoin, Workerless(id, None, Idle, Joining(0)));
    run := Extend(run, Return, Workerless(id, None, Idle, Finished));
  }

  lemma Extend(run: seq<State>, step: Step, s: State) returns (longer: seq<State>)
    requires IsRun(run)
    requires Enabled(run[|run| - 1], step) && s == Apply(run[|run| - 1], step)
    ensures IsRun(longer) && longer == run + [s]
  {
    longer := run + [s];
    forall i | 0 <= i < |longer| - 1 ensures Next(longer[i], longer[i + 1]) {
      if i < |run| - 1 {
        assert Next(run[i], run[i + 1]);
      }
    }
  }

  lemma FirstIsCounted(items: seq<Item>)
    ensures items != [] ==> items[0] in items && multiset(items)[items[0]] > 0
  {
    if items != [] {
      assert items[0] in multiset(items);
    }
  }

  // ----- The destructor always returns -----

  predicate BeginsAdd(s: State, step: Step) {
    s.phase.InUse? && step.ProducerLock?
  }

  /** Until the destructor has returned, some thread can take a step that is neither a
      spurious wake-up nor the beginning of an Add. */
  lemma NeverStuck(s: State) returns (step: Step)
    requires Inv(s) && !s.phase.Finished?
    ensures Enabled(s, step) && !step.SpuriousWake? && !BeginsAdd(s, step)
  {
    if s.owner.Some? {
      step := OwnerCanStep(s);
    } else if w :| 0 <= w < |s.workers| && s.workers[w] == NotStarted {
      step := Start(w);
    } else if w :| 0 <= w < |s.workers| && s.workers[w] == AtGet {
      step := WorkerLock(w);
    } else if w :| 0 <= w < |s.workers| && s.workers[w] == Woken {
      step := Resume(w);
    } else if w :| 0 <= w < |s.workers| && s.workers[w].Got? {
      step := Execute(w);
    } else if s.phase.InUse? {
      step := Destroy;
    } else if s.phase.Stopping? {
      assert s.producers[0] == Idle;
      step := if s.phase.sent < |s.workers| then ProducerLock(0, Null) else BeginJoin;
    } else {
      step := JoinStep(s);
    }
  }

  lemma JoinStep(s: State) returns (step: Step)
    requires Inv(s) && s.phase.Joining? && s.owner.None?
    requires forall w | 0 <= w < |s.workers| :: s.workers[w] == Waiting || s.workers[w] == Exited
    ensures Enabled(s, step) && (step.Join? || step.Return?)
  {
    step := if s.phase.joined == |s.workers| then Return else Join;
    if step.Join? && s.workers[s.phase.joined] != Exited {
      SleeperMeansWokenOrOwned(s, s.phase.joined);
    }
  }

  /** Who wakes up is not up to the pool: any sleeper may, for no reason, or alone when a
      signal is sent, and the woken go on when the mutex is free. */
  lemma AnyoneMayWake(s: State, w: nat, p: nat, u: nat)
    requires Inv(s) && u in Sleepers(s.workers)
    ensures Enabled(s, SpuriousWake(u))
    ensures w < |s.workers| && s.workers[w].Took? ==> Enabled(s, WorkerSignal(w, {u}))
    ensures ProducerAt(s, p, Pushed) ==> Enabled(s, ProducerSignal(p, {u}))
    ensures WorkerAt(s, w, Woken) && s.owner.None? ==> Enabled(s, Resume(w))
  {
  }

  /** While the pool is in use, an Add of any closure can begin whenever the mutex is
      free, and nothing else can be added. */
  lemma AddCanBegin(s: State, p: nat, item: Item)
    requires Inv(s) && s.phase.InUse? && p < |s.producers|
    ensures Enabled(s, ProducerLock(p, item)) <==> s.owner.None? && item.Task?
  {
  }

  lemma OwnerCanStep(s: State) returns (step: Step)
    requires Inv(s) && s.owner.Some?
    ensures Enabled(s, step) && !step.SpuriousWake? && !step.ProducerLock?
  {
    var all := Sleepers(s.workers);
    var woke: set<nat> := if s.signalAtUnlock then all else {};
    if s.owner.value.Worker? {
      var w := s.owner.value.w;
      step := if s.workers[w].Locked? then EnterWaitLoop(w)
              else if s.workers[w].Took? then WorkerSignal(w, woke)
              else if s.workers[w].Signalled? then WorkerRelease(w)
              else if s.queue == [] then Block(w)
              else Take(w);
    } else {
      var p := s.owner.value.p;
      step := if s.producers[p].Holding? then Push(p)
              else if s.producers[p] == Pushed then ProducerSignal(p, woke)
              else ProducerRelease(p);
    }
  }

  lemma SleeperMeansNullQueued(s: State, j: nat)
    requires Inv(s) && s.phase.Joining? && j < |s.workers| && s.workers[j] == Waiting
    ensures s.queue != []
  {
    HeldNullBound(s.workers);
    assert Hand(s.workers[j], Null) == 0;
    assert multiset(s.added) == multiset(s.taken) + multiset(s.queue);
  }

  /** The wake-up for the NULL still queued was not lost. */
  lemma SleeperMeansWokenOrOwned(s: State, j: nat)
    requires Inv(s) && s.phase.Joining? && j < |s.workers| && s.workers[j] == Waiting
    ensures s.owner.Some? || exists w :: 0 <= w < |s.workers| && s.workers[w] == Woken
  {
    SleeperMeansNullQueued(s, j);
    if s.owner.None? {
      assert Worker(j) in MutexOf(s).waiting;
      var u :| u in MutexOf(s).woken;
      assert s.workers[u.w] == Woken;
    }
  }

  // Ranks: what each program counter can still cost, where `n` workers may be
  // woken by one signal.

  function WorkerRank(pc: WorkerPc, n: nat): nat {
    match pc
    case NotStarted => 4
    case AtGet => 3
    case Locked => 2
    case Woken => 2
    case Checking => 1
    case Waiting => 0
    case Took(_) => 2 * n + 6
    case Signalled(_) => 5
    case Got(_) => 4
    case Exited => 0
  }

  function ProducerRank(pc: ProducerPc, n: nat): nat {
    match pc
    case Idle => 2
    case Holding(item) => if item.Null? then 1 else 4 * n + 11
    case Pushed => 2 * n + 4
    case SignalSent => 3
  }

  function WorkersRank(ws: seq<WorkerPc>, n: nat): nat {
    if ws == [] then 0 else WorkerRank(ws[0], n) + WorkersRank(ws[1..], n)
  }

  function ProducersRank(ps: seq<ProducerPc>, n: nat): nat {
    if ps == [] then 0 else ProducerRank(ps[0], n) + ProducersRank(ps[1..], n)
  }

  function Times(count: nat, cost: nat): nat {
    if count == 0 then 0 else cost + Times(count - 1, cost)
  }

  function PhaseRank(phase: Phase, n: nat): nat {
    match phase
    case InUse => n + 3 + Times(n, 4 * n + 10)
    case Stopping(sent) => n + 2 + if sent <= n then Times(n - sent, 4 * n + 10) else 0
    case Joining(joined) => if joined <= n then n - joined + 1 else 0
    case Finished => 0
  }

  function Measure(s: State): nat {
    var n := |s.workers|;
    PhaseRank(s.phase, n) + Times(|s.queue|, 2 * n + 6)
    + ProducersRank(s.producers, n) + WorkersRank(s.workers, n)
  }

  lemma {:induction false} ProducersRankUpdate(ps: seq<ProducerPc>, p: nat, pc: ProducerPc, n: nat)
    requires p < |ps|
    ensures ProducersRank(ps[p := pc], n) + ProducerRank(ps[p], n) == ProducersRank(ps, n) + ProducerRank(pc, n)
  {
    if p == 0 {
      assert ps[p := pc][1..] == ps[1..];
    } else {
      ProducersRankUpdate(ps[1..], p - 1, pc, n);
      assert ps[p := pc][1..] == ps[1..][p - 1 := pc];
    }
  }

  lemma {:induction false} RankUpdate(ws: seq<WorkerPc>, w: nat, pc: WorkerPc, n: nat)
    requires w < |ws|
    ensures WorkersRank(ws[w := pc], n) + WorkerRank(ws[w], n) == WorkersRank(ws, n) + WorkerRank(pc, n)
  {
    if w == 0 {
      assert ws[w := pc][1..] == ws[1..];
    } else {
      RankUpdate(ws[1..], w - 1, pc, n);
      assert ws[w := pc][1..] == ws[1..][w - 1 := pc];
    }
  }

  lemma {:induction false} RankWake(ws: seq<WorkerPc>, woken: seq<WorkerPc>, n: nat)
    requires |ws| == |woken|
    requires forall w | 0 <= w < |ws| :: woken[w] == ws[w] || (ws[w] == Waiting && woken[w] == Woken)
    ensures WorkersRank(woken, n) <= WorkersRank(ws, n) + 2 * |ws|
  {
    if ws != [] {
      RankWake(ws[1..], woken[1..], n);
    }
  }

  lemma SignalDecreases(s: State, step: Step)
    requires Exclusive(s) && Enabled(s, step) && (step.WorkerSignal? || step.ProducerSignal?)
    ensures Measure(Apply(s, step)) < Measure(s)
  {
    var n := |s.workers|;
    var woken := WakeAll(s.workers, step.woke);
    SomeWoken(s.workers, step.woke);
    hide Sleepers, WakeAll, Exclusive;
    if step.WorkerSignal? {
      RankUpdate(woken, step.w, Signalled(s.workers[step.w].item), n);
    } else {
      ProducersRankUpdate(s.producers, step.p, SignalSent, n);
    }
    hide WorkersRank, ProducersRank, PhaseRank, Times;
  }

  lemma SomeWoken(ws: seq<WorkerPc>, woke: set<nat>)
    requires woke <= Sleepers(ws)
    ensures WorkersRank(WakeAll(ws, woke), |ws|) <= WorkersRank(ws, |ws|) + 2 * |ws|
    ensures forall w | 0 <= w < |ws| && ws[w] != Waiting :: WakeAll(ws, woke)[w] == ws[w]
  {
    RankWake(ws, WakeAll(ws, woke), |ws|);
  }

  lemma MoveLowersRank(s: State, step: Step)
    requires Enabled(s, step)
    requires (MovesWorkerOnly(step) && !step.SpuriousWake?) || step.Execute?
    ensures var s' := Apply(s, step);
            && |s'.workers| == |s.workers| && step.w < |s.workers|
            && s'.workers == s.workers[step.w := s'.workers[step.w]]
            && s'.queue == s.queue && s'.phase == s.phase && s'.producers == s.producers
            && WorkerRank(s'.workers[step.w], |s.workers|) < WorkerRank(s.workers[step.w], |s.workers|)
  {
  }

  /** Only the worker's rank changes. */
  lemma MoveDecreases(s: State, step: Step)
    requires Enabled(s, step)
    requires (MovesWorkerOnly(step) && !step.SpuriousWake?) || step.Execute?
    ensures Measure(Apply(s, step)) < Measure(s)
  {
    MoveLowersRank(s, step);
    hide Apply, WorkersRank, ProducersRank, WorkerRank, PhaseRank, Times, Enabled;
    var pc := Apply(s, step).workers[step.w];
    RankUpdate(s.workers, step.w, pc, |s.workers|);
  }

  lemma TakeDecreases(s: State, w: nat)
    requires Enabled(s, Take(w))
    ensures Measure(Apply(s, Take(w))) < Measure(s)
  {
    var n := |s.workers|;
    RankUpdate(s.workers, w, Took(s.queue[0]), n);
    assert Times(|s.queue|, 2 * n + 6) == Times(|s.queue| - 1, 2 * n + 6) + 2 * n + 6;
    hide WorkersRank, ProducersRank, PhaseRank, Times;
  }

  lemma PushDecreases(s: State, p: nat)
    requires Inv(s) && Enabled(s, Push(p))
    ensures Measure(Apply(s, Push(p))) < Measure(s)
  {
    var n := |s.workers|;
    var s' := Apply(s, Push(p));
    ProducersRankUpdate(s.producers, p, Pushed, n);
    assert Times(|s'.queue|, 2 * n + 6) == Times(|s.queue|, 2 * n + 6) + 2 * n + 6;
    if s.phase.Stopping? {
      assert s.producers[p].item.Null? && p == 0;
      assert Times(n - s.phase.sent, 4 * n + 10) == Times(n - s'.phase.sent, 4 * n + 10) + 4 * n + 10;
    }
    hide WorkersRank, ProducersRank, Times;
  }

  lemma ProducerDecreases(s: State, step: Step)
    requires Inv(s) && Enabled(s, step) && !BeginsAdd(s, step)
    requires step.ProducerLock? || step.ProducerRelease?
    ensures Measure(Apply(s, step)) < Measure(s)
  {
    ProducersRankUpdate(s.producers, step.p, if step.ProducerLock? then Holding(step.item) else Idle, |s.workers|);
    hide WorkersRank, ProducersRank, Times, PhaseRank;
  }

  /** Every step but a spurious wake-up and the beginning of an Add uses up some of a
      finite measure, so a pool to which nothing more is added works off its queue, and
      a shutdown with finitely many spurious wake-ups runs to its end. */
  lemma StepProgresses(s: State, step: Step)
    requires Inv(s) && Enabled(s, step) && !step.SpuriousWake? && !BeginsAdd(s, step)
    ensures Measure(Apply(s, step)) < Measure(s)
  {
    if step.WorkerSignal? || step.ProducerSignal? {
      SignalDecreases(s, step);
    } else if step.Take? {
      TakeDecreases(s, step.w);
    } else if MovesWorkerOnly(step) || step.Execute? {
      MoveDecreases(s, step);
    } else if step.Push? {
      PushDecreases(s, step.p);
    } else if step.ProducerLock? || step.ProducerRelease? {
      ProducerDecreases(s, step);
    } else {
      hide WorkersRank, ProducersRank, Times;
    }
  }

  /** From wherever a run has come to, the pool can be destroyed: some continuation, in
      which no Add begins, brings the destructor to its end. */
  lemma {:induction false} CanBeDestroyed(run: seq<State>) returns (longer: seq<State>)
    requires IsRun(run)
    ensures IsRun(longer) && run <= longer && longer[|longer| - 1].phase.Finished?
    ensures |longer[|longer| - 1].workers| == |run[|run| - 1].workers|
    ensures run[|run| - 1].added <= longer[|longer| - 1].added
    decreases Measure(run[|run| - 1])
  {
    hide Measure, Apply, Enabled, Inv;
    var s := run[|run| - 1];
    if s.phase.Finished? {
      return run;
    }
    RunKeepsInv(run, |run| - 1);
    var step := NeverStuck(s);
    StepProgresses(s, step);
    StepKeepsSizes(s, step);
    longer := Extend(run, step, Apply(s, step));
    longer := CanBeDestroyed(longer);
  }

  /** So there is a complete run of a pool of any number of workers and callers. */
  lemma PoolOfAnySize(workers: nat, callers: nat) returns (run: seq<State>)
    requires callers > 0
    ensures IsRun(run) && run[|run| - 1].phase.Finished?
    ensures |run[0].workers| == |run[|run| - 1].workers| == workers && |run[0].producers| == callers
  {
    var s := State([], None, false, seq(workers, _ => NotStarted), seq(callers, _ => Idle), InUse, [], [], [],
                   seq(workers, _ => 0));
    run := CanBeDestroyed([s]);
  }

  lemma StepKeepsSizes(s: State, step: Step)
    requires Enabled(s, step)
    ensures |Apply(s, step).workers| == |s.workers| && s.added <= Apply(s, step).added
  {
  }
}
