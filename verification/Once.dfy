/**
 Once-initialised objects: lazy instances and singletons, created by whichever
 thread wins a compare-and-swap, registered for destruction at exit, and empty
 again after the exit callbacks have run.

 Many cells and many threads; a step is one atomic action.  Exit processing is
 single threaded and runs when no call is in progress.  A finished exit starts the
 next epoch.
 */
module Once {
  import opened Wrappers

  datatype Kind = Lazy | Singleton

  /** The three values of `state_`; of a singleton's word these are NULL, the
      being-created marker and a pointer. */
  datatype Word = Empty | Creating | Created

  datatype Cell = Cell(
    kind: Kind,
    word: Word,
    instance: Option<nat>,
    creator: Option<nat>)      // history: the thread that won and is not done yet

  datatype Object = Object(cell: nat, epoch: nat, destroyed: nat)

  datatype Pc =
    | Idle
    | Entered(c: nat)
    | MustSwap(c: nat)                   // the first load did not see an instance
    | Constructing(c: nat)
    | Built(c: nat, p: nat)
    | Stored(c: nat, p: nat)             // lazy: instance_ assigned, state_ not yet
    | Registering(c: nat, p: nat)
    | Spinning(c: nat)
    | Reading(c: nat)                    // lazy: about to read instance_

  datatype Result = Result(t: nat, cell: nat, epoch: nat, p: Option<nat>)

  datatype State = State(
    cells: seq<Cell>,
    objects: seq<Object>,
    pcs: seq<Pc>,
    stack: seq<nat>,           // of the exit manager, naming cells
    exiting: bool,
    epoch: nat,
    // history
    registered: seq<nat>,      // in this epoch
    torndown: seq<nat>,        // in this epoch's exit
    results: seq<Result>)

  datatype Step =
    | Call(t: nat, cell: nat)
    | Load(t: nat)
    | CompareAndSwap(t: nat)
    | Construct(t: nat)
    | StoreInstance(t: nat)
    | Publish(t: nat)
    | Register(t: nat)
    | Spin(t: nat)
    | Read(t: nat)
    | BeginExit
    | RunCallback
    | EndExit

  predicate InCall(s: State, t: nat, c: nat) {
    t < |s.pcs| && !s.pcs[t].Idle? && s.pcs[t].c == c && c < |s.cells|
  }

  /** The cell the running thread is working on. */
  predicate At(s: State, t: nat) {
    t < |s.pcs| && !s.pcs[t].Idle? && s.pcs[t].c < |s.cells|
  }

  function CellOf(s: State, t: nat): Cell
    requires At(s, t)
  {
    s.cells[s.pcs[t].c]
  }

  predicate Enabled(s: State, step: Step) {
    match step
    case Call(t, c) => !s.exiting && t < |s.pcs| && s.pcs[t].Idle? && c < |s.cells|
    case Load(t) => At(s, t) && s.pcs[t].Entered?
    case CompareAndSwap(t) => At(s, t) && s.pcs[t].MustSwap?
    case Construct(t) => At(s, t) && s.pcs[t].Constructing?
    case StoreInstance(t) => At(s, t) && s.pcs[t].Built? && CellOf(s, t).kind.Lazy?
    case Publish(t) =>
      At(s, t) && if CellOf(s, t).kind.Lazy? then s.pcs[t].Stored? else s.pcs[t].Built?
    case Register(t) => At(s, t) && s.pcs[t].Registering?
    case Spin(t) =>
      && At(s, t) && s.pcs[t].Spinning?
      && (if CellOf(s, t).kind.Lazy? then CellOf(s, t).word.Created? else !CellOf(s, t).word.Creating?)
    case Read(t) => At(s, t) && s.pcs[t].Reading?
    case BeginExit => !s.exiting && forall t | 0 <= t < |s.pcs| :: s.pcs[t].Idle?
    case RunCallback => s.exiting && s.stack != [] && s.stack[|s.stack| - 1] < |s.cells|
    case EndExit => s.exiting && s.stack == []
  }

  function GoTo(s: State, t: nat, pc: Pc): State
    requires t < |s.pcs|
  {
    s.(pcs := s.pcs[t := pc])
  }

  function Return(s: State, t: nat, p: Option<nat>): State
    requires At(s, t)
  {
    s.(pcs := s.pcs[t := Idle], results := s.results + [Result(t, s.pcs[t].c, s.epoch, p)])
  }

  /** A lazy instance re-reads `instance_`; a singleton returns the word it loaded. */
  function Found(s: State, t: nat): State
    requires At(s, t)
  {
    if CellOf(s, t).kind.Lazy? then GoTo(s, t, Reading(s.pcs[t].c))
    else Return(s, t, CellOf(s, t).instance)
  }

  function Apply(s: State, step: Step): State
    requires Enabled(s, step)
  {
    match step
    case Call(t, c) => GoTo(s, t, Entered(c))
    case Load(t) => if CellOf(s, t).word.Created? then Found(s, t) else GoTo(s, t, MustSwap(s.pcs[t].c))
    case CompareAndSwap(t) =>
      var c := s.pcs[t].c;
      if s.cells[c].word.Empty? then
        GoTo(s, t, Constructing(c)).(cells := s.cells[c := s.cells[c].(word := Creating, creator := Some(t))])
      else GoTo(s, t, Spinning(c))
    case Construct(t) =>
      var c := s.pcs[t].c;
      GoTo(s, t, Built(c, |s.objects|)).(objects := s.objects + [Object(c, s.epoch, 0)])
    case StoreInstance(t) =>
      var (c, p) := (s.pcs[t].c, s.pcs[t].p);
      GoTo(s, t, Stored(c, p)).(cells := s.cells[c := s.cells[c].(instance := Some(p))])
    case Publish(t) =>
      var (c, p) := (s.pcs[t].c, s.pcs[t].p);
      GoTo(s, t, Registering(c, p)).(cells := s.cells[c := s.cells[c].(word := Created, instance := Some(p))])
    case Register(t) =>
      var (c, p) := (s.pcs[t].c, s.pcs[t].p);
      var s1 := s.(stack := s.stack + [c], registered := s.registered + [c],
                   cells := s.cells[c := s.cells[c].(creator := None)]);
      if s.cells[c].kind.Lazy? then GoTo(s1, t, Reading(c)) else Return(s1, t, Some(p))
    case Spin(t) => Found(s, t)
    case Read(t) => Return(s, t, CellOf(s, t).instance)
    case BeginExit => s.(exiting := true)
    case RunCallback =>
      var c := s.stack[|s.stack| - 1];
      s.(stack := s.stack[..|s.stack| - 1],
         torndown := s.torndown + [c],
         objects := Destroy(s.objects, s.cells[c].instance),
         cells := s.cells[c := s.cells[c].(word := Empty, instance := None)])
    case EndExit => s.(exiting := false, epoch := s.epoch + 1, registered := [], torndown := [])
  }

  /** Deleting NULL does nothing. */
  function Destroy(objects: seq<Object>, p: Option<nat>): seq<Object> {
    if p.Some? && p.value < |objects| then
      objects[p.value := objects[p.value].(destroyed := objects[p.value].destroyed + 1)]
    else objects
  }

  predicate Init(s: State) {
    && (forall c | 0 <= c < |s.cells| ::
          s.cells[c].word.Empty? && s.cells[c].instance.None? && s.cells[c].creator.None?)
    && (forall t | 0 <= t < |s.pcs| :: s.pcs[t].Idle?)
    && s.objects == [] && s.stack == [] && s.registered == [] && s.torndown == [] && s.results == []
    && !s.exiting
  }

  ghost predicate Next(s: State, s': State) {
    exists step :: Enabled(s, step) && s' == Apply(s, step)
  }

  ghost predicate IsRun(run: seq<State>) {
    && |run| > 0
    && Init(run[0])
    && forall i | 0 <= i < |run| - 1 :: Next(run[i], run[i + 1])
  }

  // ----- The invariant -----

  predicate Creates(pc: Pc) {
    pc.Constructing? || pc.Built? || pc.Stored? || pc.Registering?
  }

  /** `p` is the live object of cell `c` in this epoch. */
  predicate LiveObject(s: State, c: nat, p: nat) {
    p < |s.objects| && s.objects[p] == Object(c, s.epoch, 0)
  }

  /** A thread inside a call: only the creator constructs, and what it has built is
      the cell's object; a reader knows the instance is there. */
  predicate ThreadInv(s: State, t: nat)
    requires t < |s.pcs|
  {
    var pc := s.pcs[t];
    pc.Idle? || (
      && !s.exiting && pc.c < |s.cells|
      && var cell := s.cells[pc.c];
      && (Creates(pc) <==> cell.creator == Some(t))
      && match pc
         case Constructing(_) => cell.word.Creating? && cell.instance.None?
         case Built(c, p) => cell.word.Creating? && cell.instance.None? && LiveObject(s, c, p)
         case Stored(c, p) => cell.word.Creating? && cell.instance == Some(p) && cell.kind.Lazy?
         case Registering(c, p) => cell.word.Created? && cell.instance == Some(p) && c !in s.stack
         case Spinning(_) => !cell.word.Empty?
         case Reading(_) => cell.word.Created? && cell.kind.Lazy?
         case _ => true)
  }

  predicate CellInv(s: State, c: nat)
    requires c < |s.cells|
  {
    var cell := s.cells[c];
    && (cell.creator.Some? ==> InCall(s, cell.creator.value, c) && Creates(s.pcs[cell.creator.value]))
    && (cell.instance.Some? ==> LiveObject(s, c, cell.instance.value))
    && (match cell.word
        case Empty => cell.creator.None? && cell.instance.None? && c !in s.stack
        case Creating => cell.creator.Some? && c !in s.stack
        case Created => cell.instance.Some? && (cell.creator.Some? || c in s.stack))
  }

  /** The object a cell has had constructed in this epoch. */
  predicate IsCurrent(s: State, c: nat, p: nat) {
    && c < |s.cells|
    && (|| s.cells[c].instance == Some(p)
        || (s.cells[c].creator.Some? && s.cells[c].creator.value < |s.pcs|
            && s.pcs[s.cells[c].creator.value] == Built(c, p)))
  }

  predicate ObjectInv(s: State, p: nat)
    requires p < |s.objects|
  {
    var o := s.objects[p];
    && o.epoch <= s.epoch && o.destroyed <= 1
    && (o.epoch < s.epoch ==> o.destroyed == 1)
    && (o.epoch == s.epoch ==> (o.destroyed == 0 <==> IsCurrent(s, o.cell, p)))
    && (o.epoch == s.epoch && !s.exiting ==> o.destroyed == 0)
  }

  /** At most one construction per cell and epoch. */
  predicate OncePerEpoch(s: State) {
    forall p, q | 0 <= p < q < |s.objects| ::
      s.objects[p].cell != s.objects[q].cell || s.objects[p].epoch != s.objects[q].epoch
  }

  predicate Distinct(a: seq<nat>) {
    forall i, j | 0 <= i < j < |a| :: a[i] != a[j]
  }

  function Reverse(a: seq<nat>): (r: seq<nat>)
    ensures |r| == |a|
  {
    if a == [] then [] else Reverse(a[1..]) + [a[0]]
  }

  predicate StackInv(s: State) {
    && (forall i | 0 <= i < |s.stack| :: s.stack[i] < |s.cells| && s.cells[s.stack[i]].word.Created?)
    && Distinct(s.registered)
    && s.registered == s.stack + Reverse(s.torndown)
    && (!s.exiting ==> s.torndown == [])
  }

  predicate ResultInv(s: State, r: Result) {
    && r.p.Some? && r.p.value < |s.objects|
    && s.objects[r.p.value].cell == r.cell && s.objects[r.p.value].epoch == r.epoch
  }

  /** Every call returned the one object of its cell and epoch. */
  predicate ResultsInv(s: State) {
    forall i | 0 <= i < |s.results| :: ResultInv(s, s.results[i])
  }

  predicate Inv(s: State) {
    && (forall t | 0 <= t < |s.pcs| :: ThreadInv(s, t))
    && (forall c | 0 <= c < |s.cells| :: CellInv(s, c))
    && (forall p | 0 <= p < |s.objects| :: ObjectInv(s, p))
    && OncePerEpoch(s)
    && StackInv(s)
    && ResultsInv(s)
  }

  lemma InitInv(s: State)
    requires Init(s)
    ensures Inv(s)
  {
  }

  predicate IsCallStep(step: Step) {
    !step.Call? && !step.BeginExit? && !step.RunCallback? && !step.EndExit?
  }

  lemma ActiveThreadInv(s: State, step: Step)
    requires Inv(s) && Enabled(s, step) && IsCallStep(step)
    ensures ThreadInv(s, step.t) && CellInv(s, s.pcs[step.t].c)
  {
    assert ThreadInv(s, step.t);
  }

  lemma OwnStepKeepsThread(s: State, step: Step)
    requires Inv(s) && Enabled(s, step) && IsCallStep(step)
    ensures ThreadInv(Apply(s, step), step.t)
  {
    ActiveThreadInv(s, step);
  }

  lemma OtherStepKeepsThread(s: State, step: Step, t: nat)
    requires Inv(s) && Enabled(s, step) && IsCallStep(step) && t < |s.pcs| && t != step.t
    ensures ThreadInv(Apply(s, step), t)
  {
    ActiveThreadInv(s, step);
    assert ThreadInv(s, t);
  }

  lemma StepKeepsThreads(s: State, step: Step, t: nat)
    requires Inv(s) && Enabled(s, step) && t < |s.pcs|
    ensures t < |Apply(s, step).pcs| && ThreadInv(Apply(s, step), t)
  {
    if IsCallStep(step) {
      if t == step.t {
        OwnStepKeepsThread(s, step);
      } else {
        OtherStepKeepsThread(s, step, t);
      }
    } else {
      assert ThreadInv(s, t);
      assert step.Call? ==> CellInv(s, step.cell);
    }
  }

  lemma ExitHasNoCreator(s: State, c: nat)
    requires Inv(s) && s.exiting && c < |s.cells|
    ensures s.cells[c].creator.None? && CellInv(s, c)
  {
    assert forall t | 0 <= t < |s.pcs| :: ThreadInv(s, t) && s.pcs[t].Idle?;
    assert CellInv(s, c);
  }

  lemma CallKeepsCells(s: State, step: Step, c: nat)
    requires Inv(s) && Enabled(s, step) && c < |s.cells| && IsCallStep(step)
    ensures c < |Apply(s, step).cells| && CellInv(Apply(s, step), c)
  {
    assert CellInv(s, c);
    assert ThreadInv(s, step.t);
  }

  lemma LastIsUnique(s: State)
    requires StackInv(s) && s.stack != []
    ensures s.stack[|s.stack| - 1] !in s.stack[..|s.stack| - 1]
  {
    var last := |s.stack| - 1;
    assert forall i | 0 <= i < |s.stack| :: s.registered[i] == s.stack[i];
    assert forall i | 0 <= i < last :: s.registered[i] != s.registered[last];
  }

  lemma CallbackKeepsCells(s: State, c: nat)
    requires Inv(s) && Enabled(s, RunCallback) && c < |s.cells|
    ensures c < |Apply(s, RunCallback).cells| && CellInv(Apply(s, RunCallback), c)
  {
    var last := |s.stack| - 1;
    ExitHasNoCreator(s, c);
    LastIsUnique(s);
    ExitHasNoCreator(s, s.stack[last]);
    assert s.stack == s.stack[..last] + [s.stack[last]];
  }

  lemma StepKeepsCells(s: State, step: Step, c: nat)
    requires Inv(s) && Enabled(s, step) && c < |s.cells|
    ensures c < |Apply(s, step).cells| && CellInv(Apply(s, step), c)
  {
    if IsCallStep(step) {
      CallKeepsCells(s, step, c);
    } else if step.RunCallback? {
      CallbackKeepsCells(s, c);
    } else {
      assert CellInv(s, c);
      if step.EndExit? {
        ExitHasNoCreator(s, c);
      }
    }
  }

  lemma CallKeepsObjects(s: State, step: Step, p: nat)
    requires Inv(s) && Enabled(s, step) && p < |Apply(s, step).objects| && IsCallStep(step)
    ensures ObjectInv(Apply(s, step), p)
  {
    assert p < |s.objects| ==> ObjectInv(s, p);
    assert ThreadInv(s, step.t);
    assert CellInv(s, s.pcs[step.t].c);
  }

  lemma ExitKeepsObjects(s: State, step: Step, p: nat)
    requires Inv(s) && Enabled(s, step) && p < |s.objects| && (step.RunCallback? || step.EndExit?)
    ensures p < |Apply(s, step).objects| && ObjectInv(Apply(s, step), p)
  {
    assert ObjectInv(s, p);
    if step.RunCallback? {
      ExitHasNoCreator(s, s.stack[|s.stack| - 1]);
    } else if s.objects[p].cell < |s.cells| {
      ExitHasNoCreator(s, s.objects[p].cell);
    }
  }

  lemma StepKeepsObjects(s: State, step: Step, p: nat)
    requires Inv(s) && Enabled(s, step) && p < |Apply(s, step).objects|
    ensures ObjectInv(Apply(s, step), p)
  {
    if IsCallStep(step) {
      CallKeepsObjects(s, step, p);
    } else if step.RunCallback? || step.EndExit? {
      ExitKeepsObjects(s, step, p);
    } else {
      assert ObjectInv(s, p);
      if step.Call? {
        assert CellInv(s, step.cell);
        assert forall c | 0 <= c < |s.cells| :: CellInv(s, c);
      }
    }
  }

  lemma {:induction false} ReverseAppend(a: seq<nat>, x: nat)
    ensures Reverse(a + [x]) == [x] + Reverse(a)
  {
    if a == [] {
      assert [] + [x] == [x];
    } else {
      ReverseAppend(a[1..], x);
      assert (a + [x])[1..] == a[1..] + [x];
    }
  }

  lemma {:induction false} ReverseTwice(a: seq<nat>)
    ensures Reverse(Reverse(a)) == a
  {
    if a != [] {
      ReverseTwice(a[1..]);
      ReverseAppend(Reverse(a[1..]), a[0]);
    }
  }

  lemma RegisterKeepsStack(s: State, t: nat)
    requires Inv(s) && Enabled(s, Register(t))
    ensures StackInv(Apply(s, Register(t)))
  {
    assert ThreadInv(s, t);
    assert s.registered == s.stack;
  }

  lemma CallbackKeepsStack(s: State)
    requires Inv(s) && Enabled(s, RunCallback)
    ensures StackInv(Apply(s, RunCallback))
  {
    var last := |s.stack| - 1;
    LastIsUnique(s);
    ReverseAppend(s.torndown, s.stack[last]);
    assert s.stack == s.stack[..last] + [s.stack[last]];
  }

  lemma StepKeepsStack(s: State, step: Step)
    requires Inv(s) && Enabled(s, step)
    ensures StackInv(Apply(s, step))
  {
    if step.Register? {
      RegisterKeepsStack(s, step.t);
    } else if step.RunCallback? {
      CallbackKeepsStack(s);
    } else if IsCallStep(step) {
      assert ThreadInv(s, step.t);
    }
  }

  lemma StepKeepsOnce(s: State, step: Step)
    requires Inv(s) && Enabled(s, step)
    ensures OncePerEpoch(Apply(s, step))
  {
    if step.Construct? {
      assert ThreadInv(s, step.t);
      assert CellInv(s, s.pcs[step.t].c);
      forall p | 0 <= p < |s.objects|
        ensures s.objects[p].cell != s.pcs[step.t].c || s.objects[p].epoch != s.epoch
      {
        assert ObjectInv(s, p);
      }
    }
  }

  lemma StepKeepsResults(s: State, step: Step)
    requires Inv(s) && Enabled(s, step)
    ensures ResultsInv(Apply(s, step))
  {
    if IsCallStep(step) {
      assert ThreadInv(s, step.t);
      assert CellInv(s, s.pcs[step.t].c);
    }
    forall i | 0 <= i < |Apply(s, step).results| ensures ResultInv(Apply(s, step), Apply(s, step).results[i]) {
      assert i < |s.results| ==> ResultInv(s, s.results[i]);
    }
  }

  lemma StepKeepsInv(s: State, step: Step)
    requires Inv(s) && Enabled(s, step)
    ensures Inv(Apply(s, step))
  {
    var s' := Apply(s, step);
    forall t | 0 <= t < |s'.pcs| ensures ThreadInv(s', t) { StepKeepsThreads(s, step, t); }
    forall c | 0 <= c < |s'.cells| ensures CellInv(s', c) { StepKeepsCells(s, step, c); }
    forall p | 0 <= p < |s'.objects| ensures ObjectInv(s', p) { StepKeepsObjects(s, step, p); }
    StepKeepsOnce(s, step);
    StepKeepsStack(s, step);
    StepKeepsResults(s, step);
  }

  lemma {:induction false} RunKeepsInv(run: seq<State>, i: nat)
    requires IsRun(run) && i < |run|
    ensures Inv(run[i])
  {
    if i == 0 {
      InitInv(run[0]);
    } else {
      RunKeepsInv(run, i - 1);
      assert Next(run[i - 1], run[i - 1 + 1]);
      var step :| Enabled(run[i - 1], step) && run[i] == Apply(run[i - 1], step);
      StepKeepsInv(run[i - 1], step);
    }
  }

  // ----- What every run guarantees -----

  /** However many threads race, all calls on one cell in one epoch return the same
      object, no other object is ever constructed for that cell in that epoch, and
      a call returns it only while it is alive. */
  lemma CallsAgree(run: seq<State>, i: nat, a: nat, b: nat)
    requires IsRun(run) && i < |run| && a < |run[i].results| && b < |run[i].results|
    requires run[i].results[a].cell == run[i].results[b].cell
    requires run[i].results[a].epoch == run[i].results[b].epoch
    ensures run[i].results[a].p == run[i].results[b].p && run[i].results[a].p.Some?
    ensures OncePerEpoch(run[i])
  {
    RunKeepsInv(run, i);
    assert ResultInv(run[i], run[i].results[a]) && ResultInv(run[i], run[i].results[b]);
  }

  lemma CallsReturnLiveObjects(run: seq<State>, i: nat, step: Step)
    requires IsRun(run) && i < |run| && Enabled(run[i], step)
    ensures var (s, s') := (run[i], Apply(run[i], step));
            |s'.results| > |s.results| ==>
              var r := s'.results[|s.results|];
              r.p.Some? && LiveObject(s', r.cell, r.p.value) && r.epoch == s'.epoch
  {
    RunKeepsInv(run, i);
    var s := run[i];
    if IsCallStep(step) {
      assert ThreadInv(s, step.t);
      assert CellInv(s, s.pcs[step.t].c);
    }
  }

  /** When exit processing ends, the registered instances have been torn down in
      reverse order of registration, every object ever made has been destroyed
      exactly once, and every cell is empty again. */
  lemma ExitTearsDownAll(run: seq<State>, i: nat)
    requires IsRun(run) && i < |run| && Enabled(run[i], EndExit)
    ensures var s := run[i];
            && s.torndown == Reverse(s.registered) && Distinct(s.registered)
            && (forall p | 0 <= p < |s.objects| :: s.objects[p].destroyed == 1)
            && (forall c | 0 <= c < |s.cells| :: s.cells[c].word.Empty? && s.cells[c].instance.None?)
  {
    RunKeepsInv(run, i);
    var s := run[i];
    assert s.stack + Reverse(s.torndown) == Reverse(s.torndown);
    ReverseTwice(s.torndown);
    forall c | 0 <= c < |s.cells| ensures s.cells[c].word.Empty? && s.cells[c].instance.None? {
      ExitHasNoCreator(s, c);
    }
    forall p | 0 <= p < |s.objects| ensures s.objects[p].destroyed == 1 {
      assert ObjectInv(s, p);
      if s.objects[p].cell < |s.cells| {
        ExitHasNoCreator(s, s.objects[p].cell);
      }
    }
  }

  /** A spinning thread always has a creator that can move. */
  lemma CallsNeverStuck(s: State, t: nat)
    requires Inv(s) && t < |s.pcs| && !s.pcs[t].Idle?
    ensures exists step :: Enabled(s, step) && IsCallStep(step)
  {
    assert ThreadInv(s, t);
    var c := s.pcs[t].c;
    assert CellInv(s, c);
    var u := if s.pcs[t].Spinning? && s.cells[c].word.Creating? then s.cells[c].creator.value else t;
    assert ThreadInv(s, u);
    var pc := s.pcs[u];
    assert Enabled(s,
      if pc.Entered? then Load(u)
      else if pc.MustSwap? then CompareAndSwap(u)
      else if pc.Constructing? then Construct(u)
      else if pc.Built? && s.cells[c].kind.Lazy? then StoreInstance(u)
      else if pc.Built? || pc.Stored? then Publish(u)
      else if pc.Registering? then Register(u)
      else if pc.Spinning? then Spin(u)
      else Read(u));
  }
}
