/**
 Reference-counted pointers: a control block with a strong and a weak count, and
 handles (shared and weak pointers, temporaries included) that threads create,
 copy, swap and destroy concurrently.

 Each step is one atomic action.  The destructor of the last shared pointer is
 four of them: decrement, delete the object, decrement the weak count, and delete
 the control block if that reached zero.  What a thread still has to do is a
 pending task, so other threads may run in between.  Assignment and reset are a
 copy or construction into a temporary, a swap, and the temporary's destructor.
 */
module SharedPtr {
  import opened Wrappers

  datatype Block = Block(refcount: int, weakCount: int, objectDeletes: nat, blockDeletes: nat)

  /** A pointer variable; the object and its control block go by one number. */
  datatype Handle = Strong(target: Option<nat>) | Weak(target: Option<nat>)

  datatype Task = DeleteObject(b: nat) | DropWeak(b: nat) | DeleteBlock(b: nat)

  datatype State = State(handles: map<nat, Handle>, blocks: map<nat, Block>, tasks: map<nat, Task>)

  datatype Step =
    | NewEmpty(h: nat, strong: bool)
    | NewObject(h: nat, b: nat)
    | CopyStrong(h: nat, src: nat)
    | Observe(h: nat, src: nat)            // weak copy of a shared or weak pointer
    | Swap(h: nat, other: nat)
    | DestroyStrong(h: nat, task: nat)
    | DestroyWeak(h: nat, task: nat)
    | RunTask(task: nat)

  /** What a destructor or task that names a control block finds of it; a control
      block that was never made cannot be touched. */
  predicate Knows(s: State, target: Option<nat>) {
    target.Some? ==> target.value in s.blocks
  }

  predicate Enabled(s: State, step: Step) {
    match step
    case NewEmpty(h, _) => h !in s.handles
    case NewObject(h, b) => h !in s.handles && b !in s.blocks
    case CopyStrong(h, src) =>
      h !in s.handles && src in s.handles && s.handles[src].Strong? && Knows(s, s.handles[src].target)
    case Observe(h, src) =>
      h !in s.handles && src in s.handles && Knows(s, s.handles[src].target)
    case Swap(h, other) =>
      h in s.handles && other in s.handles && s.handles[h].Strong? == s.handles[other].Strong?
    case DestroyStrong(h, task) =>
      && h in s.handles && s.handles[h].Strong? && Knows(s, s.handles[h].target)
      && task !in s.tasks
    case DestroyWeak(h, task) =>
      && h in s.handles && s.handles[h].Weak? && Knows(s, s.handles[h].target)
      && task !in s.tasks
    case RunTask(task) => task in s.tasks && s.tasks[task].b in s.blocks
  }

  function AddStrong(s: State, b: nat, delta: int): State
    requires b in s.blocks
  {
    s.(blocks := s.blocks[b := s.blocks[b].(refcount := s.blocks[b].refcount + delta)])
  }

  function AddWeak(s: State, b: nat, delta: int): State
    requires b in s.blocks
  {
    s.(blocks := s.blocks[b := s.blocks[b].(weakCount := s.blocks[b].weakCount + delta)])
  }

  function Apply(s: State, step: Step): State
    requires Enabled(s, step)
  {
    match step
    case NewEmpty(h, strong) =>
      s.(handles := s.handles[h := if strong then Strong(None) else Weak(None)])
    case NewObject(h, b) =>
      s.(handles := s.handles[h := Strong(Some(b))], blocks := s.blocks[b := Block(1, 1, 0, 0)])
    case CopyStrong(h, src) =>
      var to := s.handles[src].target;
      (if to.Some? then AddStrong(s, to.value, 1) else s).(handles := s.handles[h := Strong(to)])
    case Observe(h, src) =>
      var to := s.handles[src].target;
      (if to.Some? then AddWeak(s, to.value, 1) else s).(handles := s.handles[h := Weak(to)])
    case Swap(h, other) =>
      s.(handles := s.handles[h := s.handles[other]][other := s.handles[h]])
    case DestroyStrong(h, task) =>
      var to := s.handles[h].target;
      var s1 := s.(handles := s.handles - {h});
      if to.None? then s1 else
      var s2 := AddStrong(s1, to.value, -1);
      if s2.blocks[to.value].refcount == 0 then s2.(tasks := s.tasks[task := DeleteObject(to.value)]) else s2
    case DestroyWeak(h, task) =>
      var to := s.handles[h].target;
      var s1 := s.(handles := s.handles - {h});
      if to.None? then s1 else
      var s2 := AddWeak(s1, to.value, -1);
      if s2.blocks[to.value].weakCount == 0 then s2.(tasks := s.tasks[task := DeleteBlock(to.value)]) else s2
    case RunTask(task) =>
      var b := s.tasks[task].b;
      match s.tasks[task] {
        case DeleteObject(_) =>
          s.(blocks := s.blocks[b := s.blocks[b].(objectDeletes := s.blocks[b].objectDeletes + 1)],
             tasks := s.tasks[task := DropWeak(b)])
        case DropWeak(_) =>
          var s1 := AddWeak(s, b, -1);
          s1.(tasks := if s1.blocks[b].weakCount == 0 then s.tasks[task := DeleteBlock(b)] else s.tasks - {task})
        case DeleteBlock(_) =>
          s.(blocks := s.blocks[b := s.blocks[b].(blockDeletes := s.blocks[b].blockDeletes + 1)],
             tasks := s.tasks - {task})
      }
  }

  predicate Init(s: State) {
    s.handles == map[] && s.blocks == map[] && s.tasks == map[]
  }

  ghost predicate Next(s: State, s': State) {
    exists step :: Enabled(s, step) && s' == Apply(s, step)
  }

  ghost predicate IsRun(run: seq<State>) {
    && |run| > 0
    && Init(run[0])
    && forall i | 0 <= i < |run| - 1 :: Next(run[i], run[i + 1])
  }

  // ----- Counting handles -----

  /** The handles whose value is `v`. */
  function Holders(handles: map<nat, Handle>, v: Handle): set<nat> {
    set h | h in handles && handles[h] == v
  }

  function Owners(s: State, b: nat): nat {
    |Holders(s.handles, Strong(Some(b)))|
  }

  function Observers(s: State, b: nat): nat {
    |Holders(s.handles, Weak(Some(b)))|
  }

  lemma HoldersAdd(handles: map<nat, Handle>, h: nat, v: Handle, x: Handle)
    requires h !in handles
    ensures |Holders(handles[h := v], x)| == |Holders(handles, x)| + if v == x then 1 else 0
  {
    assert Holders(handles[h := v], x) == Holders(handles, x) + if v == x then {h} else {};
  }

  lemma HoldersRemove(handles: map<nat, Handle>, h: nat, x: Handle)
    requires h in handles
    ensures |Holders(handles - {h}, x)| == |Holders(handles, x)| - if handles[h] == x then 1 else 0
  {
    assert Holders(handles - {h}, x) == Holders(handles, x) - {h};
  }

  lemma HoldersSwap(handles: map<nat, Handle>, h: nat, other: nat, x: Handle)
    requires h in handles && other in handles
    ensures |Holders(handles[h := handles[other]][other := handles[h]], x)| == |Holders(handles, x)|
  {
    var swapped := handles[h := handles[other]][other := handles[h]];
    if h == other {
      assert swapped == handles;
    } else {
      var rest := handles - {h} - {other};
      HoldersRemove(handles, h, x);
      HoldersRemove(handles - {h}, other, x);
      HoldersAdd(rest, h, handles[other], x);
      HoldersAdd(rest[h := handles[other]], other, handles[h], x);
      assert rest[h := handles[other]][other := handles[h]] == swapped;
    }
  }

  lemma HolderCounts(handles: map<nat, Handle>, h: nat)
    requires h in handles
    ensures |Holders(handles, handles[h])| > 0
  {
    assert h in Holders(handles, handles[h]);
  }

  // ----- The invariant -----

  /** The task that is finishing off a control block, if any. */
  ghost predicate Finishing(s: State, t: nat, b: nat) {
    t in s.tasks && s.tasks[t].b == b
  }

  /** The counts of one block, also between the steps of a destructor: the owners
      together hold one weak count until the last of them has dropped it. */
  ghost predicate BlockInv(s: State, b: nat)
    requires b in s.blocks
  {
    var (block, owners, observers) := (s.blocks[b], Owners(s, b), Observers(s, b));
    && block.refcount == owners
    && (forall t, u | Finishing(s, t, b) && Finishing(s, u, b) :: t == u)
    && (owners > 0 ==>
          && (forall t :: !Finishing(s, t, b))
          && block == Block(owners, observers + 1, 0, 0))
    && (forall t | Finishing(s, t, b) ::
          match s.tasks[t]
          case DeleteObject(_) => block == Block(0, observers + 1, 0, 0)
          case DropWeak(_) => block == Block(0, observers + 1, 1, 0)
          case DeleteBlock(_) => observers == 0 && block == Block(0, 0, 1, 0))
    && (owners == 0 && (forall t :: !Finishing(s, t, b)) ==>
          block == Block(0, observers, 1, if observers == 0 then 1 else 0))
  }

  /** Every pointer and task names a control block that was made. */
  predicate Resolved(s: State) {
    && (forall h | h in s.handles :: Knows(s, s.handles[h].target))
    && (forall t | t in s.tasks :: s.tasks[t].b in s.blocks)
  }

  ghost predicate Inv(s: State) {
    && Resolved(s)
    && (forall b | b in s.blocks :: BlockInv(s, b))
  }

  lemma StepKeepsResolved(s: State, step: Step)
    requires Resolved(s) && Enabled(s, step)
    ensures Resolved(Apply(s, step))
  {
    var s' := Apply(s, step);
    assert s.blocks.Keys <= s'.blocks.Keys;
  }

  /** Nothing that concerns block `b` differs between two states. */
  ghost predicate SameFor(s: State, s': State, b: nat)
    requires b in s.blocks
  {
    && b in s'.blocks && s'.blocks[b] == s.blocks[b]
    && Owners(s', b) == Owners(s, b) && Observers(s', b) == Observers(s, b)
    && forall t :: (Finishing(s', t, b) <==> Finishing(s, t, b))
                   && (Finishing(s, t, b) ==> s'.tasks[t] == s.tasks[t])
  }

  lemma SameKeepsBlock(s: State, s': State, b: nat)
    requires b in s.blocks && BlockInv(s, b) && SameFor(s, s', b)
    ensures BlockInv(s', b)
  {
  }

  lemma HandleCounts(s: State, h: nat, v: Handle, b: nat)
    requires h !in s.handles
    ensures var s' := s.(handles := s.handles[h := v]);
            && Owners(s', b) == Owners(s, b) + (if v == Strong(Some(b)) then 1 else 0)
            && Observers(s', b) == Observers(s, b) + (if v == Weak(Some(b)) then 1 else 0)
  {
    HoldersAdd(s.handles, h, v, Strong(Some(b)));
    HoldersAdd(s.handles, h, v, Weak(Some(b)));
  }

  lemma FreshHasNoHolders(s: State, b: nat)
    requires Inv(s) && b !in s.blocks
    ensures Owners(s, b) == 0 && Observers(s, b) == 0
  {
    assert Holders(s.handles, Strong(Some(b))) == {};
    assert Holders(s.handles, Weak(Some(b))) == {};
  }

  lemma NewKeepsInv(s: State, step: Step)
    requires Inv(s) && Enabled(s, step) && (step.NewEmpty? || step.NewObject?)
    ensures Inv(Apply(s, step))
  {
    var s' := Apply(s, step);
    forall b | b in s'.blocks ensures BlockInv(s', b) {
      HandleCounts(s, step.h, s'.handles[step.h], b);
      if b in s.blocks {
        SameKeepsBlock(s, s', b);
      } else {
        FreshHasNoHolders(s, b);
      }
    }
  }

  lemma CopyKeepsBlock(s: State, step: Step, b: nat)
    requires Inv(s) && Enabled(s, step) && (step.CopyStrong? || step.Observe?) && b in s.blocks
    ensures b in Apply(s, step).blocks && BlockInv(Apply(s, step), b)
  {
    var s' := Apply(s, step);
    HolderCounts(s.handles, step.src);
    HandleCounts(s, step.h, s'.handles[step.h], b);
    if s.handles[step.src].target != Some(b) {
      SameKeepsBlock(s, s', b);
    } else {
      assert BlockInv(s, b);
      assert forall t :: Finishing(s', t, b) <==> Finishing(s, t, b);
    }
  }

  lemma CopyKeepsInv(s: State, step: Step)
    requires Inv(s) && Enabled(s, step) && (step.CopyStrong? || step.Observe?)
    ensures Inv(Apply(s, step))
  {
    var s' := Apply(s, step);
    StepKeepsResolved(s, step);
    hide BlockInv, Resolved;
    forall b | b in s'.blocks ensures BlockInv(s', b) {
      CopyKeepsBlock(s, step, b);
    }
  }

  lemma SwapKeepsInv(s: State, h: nat, other: nat)
    requires Inv(s) && Enabled(s, Swap(h, other))
    ensures Inv(Apply(s, Swap(h, other)))
  {
    var s' := Apply(s, Swap(h, other));
    forall b | b in s'.blocks ensures BlockInv(s', b) {
      HoldersSwap(s.handles, h, other, Strong(Some(b)));
      HoldersSwap(s.handles, h, other, Weak(Some(b)));
      SameKeepsBlock(s, s', b);
    }
  }

  lemma OwnerGone(s: State, h: nat, task: nat, b: nat)
    requires Inv(s) && Enabled(s, DestroyStrong(h, task)) && s.handles[h].target == Some(b)
    ensures BlockInv(Apply(s, DestroyStrong(h, task)), b)
  {
    var s' := Apply(s, DestroyStrong(h, task));
    HolderCounts(s.handles, h);
    HoldersRemove(s.handles, h, Strong(Some(b)));
    HoldersRemove(s.handles, h, Weak(Some(b)));
    assert BlockInv(s, b);
    assert forall t :: !Finishing(s, t, b);
    assert forall t :: Finishing(s', t, b) ==> t == task;
    if Owners(s, b) == 1 {
      assert Finishing(s', task, b);
    }
  }

  lemma ObserverGone(s: State, h: nat, task: nat, b: nat)
    requires Inv(s) && Enabled(s, DestroyWeak(h, task)) && s.handles[h].target == Some(b)
    ensures BlockInv(Apply(s, DestroyWeak(h, task)), b)
  {
    var s' := Apply(s, DestroyWeak(h, task));
    HolderCounts(s.handles, h);
    HoldersRemove(s.handles, h, Strong(Some(b)));
    HoldersRemove(s.handles, h, Weak(Some(b)));
    assert BlockInv(s, b);
    if s.blocks[b].weakCount == 1 {
      assert forall t :: !Finishing(s, t, b);
      assert forall t :: Finishing(s', t, b) ==> t == task;
      assert Finishing(s', task, b);
    } else {
      assert forall t :: Finishing(s', t, b) <==> Finishing(s, t, b);
    }
  }

  lemma DestroySparesOthers(s: State, step: Step, b: nat)
    requires Enabled(s, step) && (step.DestroyStrong? || step.DestroyWeak?)
    requires b in s.blocks && s.handles[step.h].target != Some(b)
    ensures SameFor(s, Apply(s, step), b)
  {
    HoldersRemove(s.handles, step.h, Strong(Some(b)));
    HoldersRemove(s.handles, step.h, Weak(Some(b)));
  }

  lemma DestroyKeepsBlock(s: State, step: Step, b: nat)
    requires Inv(s) && Enabled(s, step) && (step.DestroyStrong? || step.DestroyWeak?)
    requires b in s.blocks
    ensures b in Apply(s, step).blocks && BlockInv(Apply(s, step), b)
  {
    if s.handles[step.h].target == Some(b) {
      if step.DestroyStrong? {
        OwnerGone(s, step.h, step.task, b);
      } else {
        ObserverGone(s, step.h, step.task, b);
      }
    } else {
      DestroySparesOthers(s, step, b);
      SameKeepsBlock(s, Apply(s, step), b);
    }
  }

  lemma DestroyKeepsInv(s: State, step: Step)
    requires Inv(s) && Enabled(s, step) && (step.DestroyStrong? || step.DestroyWeak?)
    ensures Inv(Apply(s, step))
  {
    var s' := Apply(s, step);
    StepKeepsResolved(s, step);
    hide BlockInv, Resolved;
    forall b | b in s'.blocks ensures BlockInv(s', b) {
      DestroyKeepsBlock(s, step, b);
    }
  }

  lemma TaskKeepsBlock(s: State, task: nat)
    requires Inv(s) && Enabled(s, RunTask(task))
    ensures var b := s.tasks[task].b;
            b in Apply(s, RunTask(task)).blocks && BlockInv(Apply(s, RunTask(task)), b)
  {
    var s' := Apply(s, RunTask(task));
    var b := s.tasks[task].b;
    assert BlockInv(s, b) && Finishing(s, task, b);
    forall t | Finishing(s', t, b) ensures t == task {
      if t != task {
        assert Finishing(s, t, b);
      }
    }
    assert Finishing(s', task, b) <==> task in s'.tasks;
  }

  lemma TaskSparesOthers(s: State, task: nat, b: nat)
    requires Enabled(s, RunTask(task)) && b in s.blocks && s.tasks[task].b != b
    ensures SameFor(s, Apply(s, RunTask(task)), b)
  {
  }

  lemma TaskKeepsInv(s: State, task: nat)
    requires Inv(s) && Enabled(s, RunTask(task))
    ensures Inv(Apply(s, RunTask(task)))
  {
    var s' := Apply(s, RunTask(task));
    StepKeepsResolved(s, RunTask(task));
    TaskKeepsBlock(s, task);
    hide BlockInv, Resolved;
    forall b | b in s'.blocks ensures BlockInv(s', b) {
      if s.tasks[task].b != b {
        TaskSparesOthers(s, task, b);
        SameKeepsBlock(s, s', b);
      }
    }
  }

  lemma StepKeepsInv(s: State, step: Step)
    requires Inv(s) && Enabled(s, step)
    ensures Inv(Apply(s, step))
  {
    match step
    case NewEmpty(_, _) => NewKeepsInv(s, step);
    case NewObject(_, _) => NewKeepsInv(s, step);
    case CopyStrong(_, _) => CopyKeepsInv(s, step);
    case Observe(_, _) => CopyKeepsInv(s, step);
    case Swap(h, other) => SwapKeepsInv(s, h, other);
    case DestroyStrong(_, _) => DestroyKeepsInv(s, step);
    case DestroyWeak(_, _) => DestroyKeepsInv(s, step);
    case RunTask(task) => TaskKeepsInv(s, task);
  }

  lemma {:induction false} RunKeepsInv(run: seq<State>, i: nat)
    requires IsRun(run) && i < |run|
    ensures Inv(run[i])
  {
    if i > 0 {
      RunKeepsInv(run, i - 1);
      assert Next(run[i - 1], run[i - 1 + 1]);
      var step :| Enabled(run[i - 1], step) && run[i] == Apply(run[i - 1], step);
      StepKeepsInv(run[i - 1], step);
    }
  }

  // ----- What every run guarantees -----

  /** The control block a step reads or writes, and whether it deletes the object. */
  function Touches(s: State, step: Step): Option<nat>
    requires Enabled(s, step)
  {
    match step
    case CopyStrong(_, src) => s.handles[src].target
    case Observe(_, src) => s.handles[src].target
    case DestroyStrong(h, _) => s.handles[h].target
    case DestroyWeak(h, _) => s.handles[h].target
    case RunTask(task) => Some(s.tasks[task].b)
    case _ => None
  }

  lemma BlockBounds(s: State, b: nat)
    requires b in s.blocks && BlockInv(s, b)
    ensures var block := s.blocks[b];
            && block.objectDeletes <= 1 && block.blockDeletes <= 1
            && block.refcount >= 0 && block.weakCount >= 0
            && (Owners(s, b) > 0 || Observers(s, b) > 0 ==> block.blockDeletes == 0)
            && (Owners(s, b) > 0 ==> block.objectDeletes == 0)
  {
    if t :| Finishing(s, t, b) {
      assert s.tasks[t].b == b;
    }
  }

  lemma HandleIsCounted(s: State, h: nat, b: nat)
    requires Inv(s) && h in s.handles && s.handles[h].target == Some(b)
    ensures b in s.blocks && s.blocks[b].blockDeletes == 0
    ensures if s.handles[h].Strong? then Owners(s, b) > 0 else Observers(s, b) > 0
  {
    HolderCounts(s.handles, h);
    assert s.handles[h] == Strong(Some(b)) || s.handles[h] == Weak(Some(b));
    BlockBounds(s, b);
  }

  /** Whatever thread runs next, its step reads and writes only live control blocks
      and deletes only a live object. */
  lemma StepTouchesLiveBlock(run: seq<State>, i: nat, step: Step)
    requires IsRun(run) && i < |run| && Enabled(run[i], step)
    ensures var s := run[i];
            && (Touches(s, step).Some? ==> s.blocks[Touches(s, step).value].blockDeletes == 0)
            && (step.RunTask? && s.tasks[step.task].DeleteObject? ==>
                  s.blocks[s.tasks[step.task].b].objectDeletes == 0)
  {
    RunKeepsInv(run, i);
    var s := run[i];
    if step.RunTask? {
      var b := s.tasks[step.task].b;
      assert BlockInv(s, b) && Finishing(s, step.task, b);
    } else if Touches(s, step).Some? {
      HandleIsCounted(s, if step.CopyStrong? || step.Observe? then step.src else step.h, Touches(s, step).value);
    }
  }

  lemma ZeroStaysZero(s: State, step: Step, b: nat)
    requires Inv(s) && Enabled(s, step) && b in s.blocks && s.blocks[b].refcount == 0
    ensures b in Apply(s, step).blocks && Apply(s, step).blocks[b].refcount == 0
  {
    assert BlockInv(s, b);
    if step.CopyStrong? && s.handles[step.src].target == Some(b) {
      HandleIsCounted(s, step.src, b);
    } else if step.DestroyStrong? && s.handles[step.h].target == Some(b) {
      HandleIsCounted(s, step.h, b);
    }
  }

  /** Objects and control blocks are deleted at most once and counts never go below
      zero; and an object without owners never gets one again. */
  lemma CountsStaySound(run: seq<State>, i: nat, b: nat)
    requires IsRun(run) && i < |run| && b in run[i].blocks
    ensures var block := run[i].blocks[b];
            && block.objectDeletes <= 1 && block.blockDeletes <= 1
            && block.refcount >= 0 && block.weakCount >= 0
  {
    RunKeepsInv(run, i);
    BlockBounds(run[i], b);
  }

  lemma {:induction false} DeadStaysDead(run: seq<State>, i: nat, j: nat, b: nat)
    requires IsRun(run) && i <= j < |run| && b in run[i].blocks && run[i].blocks[b].refcount == 0
    ensures b in run[j].blocks && run[j].blocks[b].refcount == 0
  {
    hide Inv, Enabled, Apply;
    if i < j {
      DeadStaysDead(run, i, j - 1, b);
      RunKeepsInv(run, j - 1);
      assert Next(run[j - 1], run[j - 1 + 1]);
      var step :| Enabled(run[j - 1], step) && run[j] == Apply(run[j - 1], step);
      ZeroStaysZero(run[j - 1], step, b);
    }
  }

  /** Every pointer variable names a live control block, a shared pointer a live
      object, and a weak pointer has expired exactly when no shared pointer is left. */
  lemma HandlesAreLive(run: seq<State>, i: nat, h: nat, b: nat)
    requires IsRun(run) && i < |run|
    requires h in run[i].handles && run[i].handles[h].target == Some(b)
    ensures b in run[i].blocks && run[i].blocks[b].blockDeletes == 0
    ensures run[i].handles[h].Strong? ==> run[i].blocks[b].objectDeletes == 0
    ensures run[i].blocks[b].refcount == 0 <==> (forall g | g in run[i].handles :: run[i].handles[g] != Strong(Some(b)))
  {
    RunKeepsInv(run, i);
    var s := run[i];
    HandleIsCounted(s, h, b);
    BlockBounds(s, b);
    assert BlockInv(s, b);
    if s.blocks[b].refcount == 0 {
      assert Holders(s.handles, Strong(Some(b))) == {};
      assert forall g | g in s.handles && s.handles[g] == Strong(Some(b)) :: g in Holders(s.handles, Strong(Some(b)));
    } else {
      assert Holders(s.handles, Strong(Some(b))) != {};
      var g :| g in Holders(s.handles, Strong(Some(b)));
    }
  }

  /** When every pointer is gone and every destructor has finished, each object and
      each control block has been deleted exactly once. */
  lemma NothingLeaks(run: seq<State>, b: nat)
    requires IsRun(run) && run[|run| - 1].handles == map[] && run[|run| - 1].tasks == map[]
    requires b in run[|run| - 1].blocks
    ensures run[|run| - 1].blocks[b] == Block(0, 0, 1, 1)
  {
    RunKeepsInv(run, |run| - 1);
    var s := run[|run| - 1];
    assert BlockInv(s, b);
    assert Holders(s.handles, Strong(Some(b))) == {} && Holders(s.handles, Weak(Some(b))) == {};
    assert forall t :: !Finishing(s, t, b);
  }

  /** The three steps of an assignment; what they leave of the pointer variables. */
  lemma AssignmentSteps(s: State, dst: nat, src: nat, tmp: nat, task: nat)
    returns (s1: State, s2: State, s3: State)
    requires Inv(s) && tmp !in s.handles && task !in s.tasks
    requires dst in s.handles && src in s.handles && s.handles[dst].Strong? && s.handles[src].Strong?
    ensures Enabled(s, CopyStrong(tmp, src)) && s1 == Apply(s, CopyStrong(tmp, src))
    ensures Enabled(s1, Swap(tmp, dst)) && s2 == Apply(s1, Swap(tmp, dst))
    ensures Enabled(s2, DestroyStrong(tmp, task)) && s3 == Apply(s2, DestroyStrong(tmp, task))
    ensures s2.handles[tmp] == s.handles[dst] && s3.handles == s.handles[dst := s.handles[src]]
    ensures s3.blocks.Keys == s.blocks.Keys
  {
    s1 := Apply(s, CopyStrong(tmp, src));
    s2 := Apply(s1, Swap(tmp, dst));
    assert s2.handles == s.handles[dst := s.handles[src]][tmp := s.handles[dst]];
    assert s2.blocks == s1.blocks && s2.tasks == s.tasks && s1.blocks.Keys == s.blocks.Keys;
    s3 := Apply(s2, DestroyStrong(tmp, task));
    assert s3.handles == s.handles[dst := s.handles[src]];
  }

  lemma CountsMove(s: State, step: Step, b: nat)
    requires Enabled(s, step) && (step.CopyStrong? || step.Swap? || step.DestroyStrong?) && b in s.blocks
    ensures b in Apply(s, step).blocks
    ensures Apply(s, step).blocks[b].refcount == s.blocks[b].refcount
              + (if step.CopyStrong? && s.handles[step.src].target == Some(b) then 1 else 0)
              - (if step.DestroyStrong? && s.handles[step.h].target == Some(b) then 1 else 0)
  {
  }

  /** Assignment between shared pointers to different objects: copy into a
      temporary, swap, destroy the temporary.  Run without interruption it makes
      `dst` a copy of `src`, changes no other pointer, and moves one owner from the
      old object to the new one. */
  lemma AssignmentMovesOneOwner(s: State, dst: nat, src: nat, tmp: nat, task: nat) returns (s': State)
    requires Inv(s) && tmp !in s.handles && task !in s.tasks
    requires dst in s.handles && src in s.handles && s.handles[dst].Strong? && s.handles[src].Strong?
    requires s.handles[dst].target != s.handles[src].target
    ensures Inv(s') && s'.handles == s.handles[dst := s.handles[src]]
    ensures s'.blocks.Keys == s.blocks.Keys
    ensures forall b | b in s.blocks ::
              s'.blocks[b].refcount == s.blocks[b].refcount
                                       + (if s.handles[src].target == Some(b) then 1 else 0)
                                       - (if s.handles[dst].target == Some(b) then 1 else 0)
  {
    var s1, s2, s3 := AssignmentSteps(s, dst, src, tmp, task);
    s' := s3;
    hide Inv, Apply;
    forall b | b in s.blocks
      ensures b in s'.blocks && s'.blocks[b].refcount == s.blocks[b].refcount
                                       + (if s.handles[src].target == Some(b) then 1 else 0)
                                       - (if s.handles[dst].target == Some(b) then 1 else 0)
    {
      CountsMove(s, CopyStrong(tmp, src), b);
      CountsMove(s1, Swap(tmp, dst), b);
      CountsMove(s2, DestroyStrong(tmp, task), b);
    }
    assert Inv(s') by {
      StepKeepsInv(s, CopyStrong(tmp, src));
      StepKeepsInv(s1, Swap(tmp, dst));
      StepKeepsInv(s2, DestroyStrong(tmp, task));
    }
  }

  // ----- What each operation does -----

  /** The step changes the control block of `b` to `block` and no other. */
  predicate OnlyBlock(s: State, s': State, b: nat, block: Block) {
    && s'.blocks.Keys == s.blocks.Keys + {b} && b in s'.blocks && s'.blocks[b] == block
    && forall c | c in s.blocks && c != b :: s'.blocks[c] == s.blocks[c]
  }

  /** A new object has the new variable as its one owner, and one weak count. */
  lemma NewObjectIsOwned(s: State, h: nat, b: nat)
    requires Enabled(s, NewObject(h, b))
    ensures var s' := Apply(s, NewObject(h, b));
            && s'.handles == s.handles[h := Strong(Some(b))] && s'.tasks == s.tasks
            && b !in s.blocks && OnlyBlock(s, s', b, Block(1, 1, 0, 0))
  {
  }

  lemma NewEmptyIsEmpty(s: State, h: nat, strong: bool)
    requires Enabled(s, NewEmpty(h, strong))
    ensures var s' := Apply(s, NewEmpty(h, strong));
            && h !in s.handles && h in s'.handles && s'.handles[h].target.None? && s'.handles[h].Strong? == strong
            && s'.handles - {h} == s.handles && s'.blocks == s.blocks && s'.tasks == s.tasks
  {
    var s' := Apply(s, NewEmpty(h, strong));
    assert s'.handles - {h} == s.handles;
  }

  /** A copy names what its source names and adds one owner to that. */
  lemma CopyAddsOwner(s: State, h: nat, src: nat)
    requires Enabled(s, CopyStrong(h, src))
    ensures var (s', to) := (Apply(s, CopyStrong(h, src)), s.handles[src].target);
            && s'.handles == s.handles[h := Strong(to)] && s'.tasks == s.tasks
            && (to.None? ==> s'.blocks == s.blocks)
            && (to.Some? ==> var block := s.blocks[to.value];
                  OnlyBlock(s, s', to.value, block.(refcount := block.refcount + 1)))
  {
  }

  /** A weak pointer made from a pointer names what that names and adds one to its weak
      count, whether it is made from a shared or a weak pointer. */
  lemma ObserveAddsObserver(s: State, h: nat, src: nat)
    requires Enabled(s, Observe(h, src))
    ensures var (s', to) := (Apply(s, Observe(h, src)), s.handles[src].target);
            && s'.handles == s.handles[h := Weak(to)] && s'.tasks == s.tasks
            && (to.None? ==> s'.blocks == s.blocks)
            && (to.Some? ==> var block := s.blocks[to.value];
                  OnlyBlock(s, s', to.value, block.(weakCount := block.weakCount + 1)))
  {
  }

  lemma SwapExchanges(s: State, h: nat, other: nat)
    requires Enabled(s, Swap(h, other))
    ensures var s' := Apply(s, Swap(h, other));
            && s'.handles.Keys == s.handles.Keys && s'.blocks == s.blocks && s'.tasks == s.tasks
            && s'.handles[h] == s.handles[other] && s'.handles[other] == s.handles[h]
            && forall g | g in s.handles && g != h && g != other :: s'.handles[g] == s.handles[g]
  {
  }

  /** Destroying a shared pointer takes one owner away, and has the object deleted
      exactly if that was the last. */
  lemma DestroyDropsOwner(s: State, h: nat, task: nat)
    requires Enabled(s, DestroyStrong(h, task))
    ensures var (s', to) := (Apply(s, DestroyStrong(h, task)), s.handles[h].target);
            && s'.handles == s.handles - {h}
            && (to.None? ==> s'.blocks == s.blocks && s'.tasks == s.tasks)
            && (to.Some? ==> var block := s.blocks[to.value];
                  && OnlyBlock(s, s', to.value, block.(refcount := block.refcount - 1))
                  && s'.tasks == if block.refcount == 1 then s.tasks[task := DeleteObject(to.value)] else s.tasks)
  {
  }

  /** Destroying a weak pointer takes one weak count away, and has the control block
      deleted exactly if that was the last. */
  lemma DestroyDropsObserver(s: State, h: nat, task: nat)
    requires Enabled(s, DestroyWeak(h, task))
    ensures var (s', to) := (Apply(s, DestroyWeak(h, task)), s.handles[h].target);
            && s'.handles == s.handles - {h}
            && (to.None? ==> s'.blocks == s.blocks && s'.tasks == s.tasks)
            && (to.Some? ==> var block := s.blocks[to.value];
                  && OnlyBlock(s, s', to.value, block.(weakCount := block.weakCount - 1))
                  && s'.tasks == if block.weakCount == 1 then s.tasks[task := DeleteBlock(to.value)] else s.tasks)
  {
  }

  function TaskRank(s: State, task: nat): nat {
    if task !in s.tasks then 0
    else match s.tasks[task]
      case DeleteObject(_) => 3
      case DropWeak(_) => 2
      case DeleteBlock(_) => 1
  }

  /** A destructor that has begun comes to its end: each of its steps brings it nearer,
      and touches no pointer variable, no other block and no other destructor. */
  lemma TasksEnd(s: State, task: nat)
    requires Enabled(s, RunTask(task))
    ensures var s' := Apply(s, RunTask(task));
            && TaskRank(s', task) < TaskRank(s, task) && s'.handles == s.handles
            && s'.tasks - {task} == s.tasks - {task} && s'.blocks.Keys == s.blocks.Keys
            && forall c | c in s.blocks && c != s.tasks[task].b :: s'.blocks[c] == s.blocks[c]
  {
  }

  /** What each step of a destructor does to its block, and what is left to do. */
  lemma TaskDoes(s: State, task: nat)
    requires Enabled(s, RunTask(task))
    ensures var (s', b) := (Apply(s, RunTask(task)), s.tasks[task].b);
            var block := s.blocks[b];
            match s.tasks[task]
            case DeleteObject(_) =>
              OnlyBlock(s, s', b, Block(block.refcount, block.weakCount, block.objectDeletes + 1, block.blockDeletes))
              && s'.tasks == s.tasks[task := DropWeak(b)]
            case DropWeak(_) =>
              OnlyBlock(s, s', b, Block(block.refcount, block.weakCount - 1, block.objectDeletes, block.blockDeletes))
              && s'.tasks == if block.weakCount == 1 then s.tasks[task := DeleteBlock(b)] else s.tasks - {task}
            case DeleteBlock(_) =>
              OnlyBlock(s, s', b, Block(block.refcount, block.weakCount, block.objectDeletes, block.blockDeletes + 1))
              && s'.tasks == s.tasks - {task}
  {
  }

  /** Nothing stands in the way of any operation on any pointer variable. */
  lemma AlwaysUsable(s: State, h: nat, unused: nat, task: nat, b: nat)
    requires Inv(s) && unused !in s.handles && task !in s.tasks && b !in s.blocks
    ensures Enabled(s, NewObject(unused, b)) && forall strong :: Enabled(s, NewEmpty(unused, strong))
    ensures h in s.handles ==>
              && Enabled(s, Observe(unused, h)) && (s.handles[h].Strong? <==> Enabled(s, CopyStrong(unused, h)))
              && (forall g | g in s.handles ::
                    s.handles[h].Strong? == s.handles[g].Strong? <==> Enabled(s, Swap(h, g)))
              && (s.handles[h].Strong? <==> Enabled(s, DestroyStrong(h, task)))
              && (s.handles[h].Weak? <==> Enabled(s, DestroyWeak(h, task)))
    ensures forall t | t in s.tasks :: Enabled(s, RunTask(t))
  {
  }

  // ----- What the variables hold, from the operations alone -----

  /** A run together with the operations that were carried out. */
  ghost predicate IsTrace(run: seq<State>, steps: seq<Step>) {
    && |run| == |steps| + 1 && Init(run[0])
    && forall i | 0 <= i < |steps| :: Enabled(run[i], steps[i]) && run[i + 1] == Apply(run[i], steps[i])
  }

  /** Pointers as plain variables, without counts, blocks and deletions. */
  function Variable(steps: seq<Step>, h: nat): Option<Handle> {
    if steps == [] then None else
    var (before, last) := (steps[..|steps| - 1], steps[|steps| - 1]);
    match last
    case NewEmpty(g, strong) =>
      if g != h then Variable(before, h) else if strong then Some(Strong(None)) else Some(Weak(None))
    case NewObject(g, b) => if g == h then Some(Strong(Some(b))) else Variable(before, h)
    case CopyStrong(g, src) => Variable(before, if g == h then src else h)
    case Observe(g, src) =>
      var v := Variable(before, if g == h then src else h);
      if g == h && v.Some? then Some(Weak(v.value.target)) else v
    case Swap(g, other) => Variable(before, if h == other then g else if h == g then other else h)
    case DestroyStrong(g, _) => if g == h then None else Variable(before, h)
    case DestroyWeak(g, _) => if g == h then None else Variable(before, h)
    case RunTask(_) => Variable(before, h)
  }

  predicate Holds(s: State, steps: seq<Step>, h: nat) {
    Variable(steps, h) == if h in s.handles then Some(s.handles[h]) else None
  }

  /** After any run every pointer variable holds what these operations make it hold. */
  lemma {:induction false} VariablesHold(run: seq<State>, steps: seq<Step>)
    requires IsTrace(run, steps)
    ensures forall h :: Holds(run[|steps|], steps, h)
    decreases |steps|
  {
    if steps != [] {
      var n := |steps| - 1;
      assert IsTrace(run[..n + 1], steps[..n]);
      VariablesHold(run[..n + 1], steps[..n]);
      forall h ensures Holds(run[|steps|], steps, h) {
        VariableStep(run[n], steps[..n], steps, h);
      }
    }
  }

  lemma VariableStep(s: State, before: seq<Step>, steps: seq<Step>, h: nat)
    requires steps != [] && before == steps[..|steps| - 1] && Enabled(s, steps[|steps| - 1])
    requires forall g :: Holds(s, before, g)
    ensures Holds(Apply(s, steps[|steps| - 1]), steps, h)
  {
    assert Holds(s, before, h);
    match steps[|steps| - 1]
    case CopyStrong(_, src) => assert Holds(s, before, src);
    case Observe(_, src) => assert Holds(s, before, src);
    case Swap(g, other) => assert Holds(s, before, g) && Holds(s, before, other);
    case _ =>
  }

  /** The operations that give a variable another value, or end its life. */
  predicate Changes(step: Step, h: nat) {
    match step
    case NewEmpty(g, _) => g == h
    case NewObject(g, _) => g == h
    case CopyStrong(g, _) => g == h
    case Observe(g, _) => g == h
    case Swap(g, other) => g == h || other == h
    case DestroyStrong(g, _) => g == h
    case DestroyWeak(g, _) => g == h
    case RunTask(_) => false
  }

  /** A weak pointer made from a pointer to `b` names `b` until it is swapped or
      destroyed, and has expired exactly when no shared pointer to `b` is left; its
      control block is there all the time. */
  lemma ObserverKeepsNaming(run: seq<State>, steps: seq<Step>, i: nat, j: nat, b: nat)
    requires IsTrace(run, steps) && i < j <= |steps|
    requires steps[i].Observe? && run[i].handles[steps[i].src].target == Some(b)
    requires forall k | i < k < j :: !Changes(steps[k], steps[i].h)
    ensures var (s, h) := (run[j], steps[i].h);
            && h in s.handles && s.handles[h] == Weak(Some(b)) && b in s.blocks && s.blocks[b].blockDeletes == 0
            && (s.blocks[b].refcount == 0 <==> forall g | g in s.handles :: s.handles[g] != Strong(Some(b)))
  {
    var h := steps[i].h;
    StaysUnchanged(run, steps, i + 1, j, h);
    TraceIsRun(run, steps);
    HandlesAreLive(run, j, h, b);
  }

  lemma {:induction false} StaysUnchanged(run: seq<State>, steps: seq<Step>, i: nat, j: nat, h: nat)
    requires IsTrace(run, steps) && i <= j <= |steps| && h in run[i].handles
    requires forall k | i <= k < j :: !Changes(steps[k], h)
    ensures h in run[j].handles && run[j].handles[h] == run[i].handles[h]
    decreases j - i
  {
    if i < j {
      StaysUnchanged(run, steps, i, j - 1, h);
      assert Enabled(run[j - 1], steps[j - 1]) && run[j - 1 + 1] == Apply(run[j - 1], steps[j - 1]);
    }
  }

  lemma TraceIsRun(run: seq<State>, steps: seq<Step>)
    requires IsTrace(run, steps)
    ensures IsRun(run)
  {
    forall i | 0 <= i < |run| - 1 ensures Next(run[i], run[i + 1]) {
      assert Enabled(run[i], steps[i]);
    }
  }

  /** A pointer to an object, one that observes it, and what is left when the owner and
      then the object have gone. */
  const OWNED := State(map[0 := Strong(Some(0))], map[0 := Block(1, 1, 0, 0)], map[])
  const OBSERVED := State(map[0 := Strong(Some(0)), 1 := Weak(Some(0))], map[0 := Block(1, 2, 0, 0)], map[])
  const GONE := State(map[1 := Weak(Some(0))], map[0 := Block(0, 2, 0, 0)], map[0 := DeleteObject(0)])
  const DELETED := State(map[1 := Weak(Some(0))], map[0 := Block(0, 2, 1, 0)], map[0 := DropWeak(0)])
  const EXPIRED := State(map[1 := Weak(Some(0))], map[0 := Block(0, 1, 1, 0)], map[])

  lemma IsObserved()
    ensures Enabled(State(map[], map[], map[]), NewObject(0, 0))
    ensures Apply(State(map[], map[], map[]), NewObject(0, 0)) == OWNED
    ensures Enabled(OWNED, Observe(1, 0)) && Apply(OWNED, Observe(1, 0)) == OBSERVED
  {
  }

  lemma IsGone()
    ensures Enabled(OBSERVED, DestroyStrong(0, 0)) && Apply(OBSERVED, DestroyStrong(0, 0)) == GONE
  {
    assert OBSERVED.handles - {0} == GONE.handles;
  }

  lemma IsDeleted()
    ensures Enabled(GONE, RunTask(0)) && Apply(GONE, RunTask(0)) == DELETED
    ensures Enabled(DELETED, RunTask(0)) && Apply(DELETED, RunTask(0)) == EXPIRED
  {
    assert DELETED.tasks - {0} == map[];
  }

  /** An object with an observer; when its one owner goes, the object is deleted and the
      observer has expired, but still names the control block. */
  lemma ObserverExample() returns (run: seq<State>)
    ensures IsTrace(run, [NewObject(0, 0), Observe(1, 0), DestroyStrong(0, 0), RunTask(0), RunTask(0)])
    ensures run[2].handles == map[0 := Strong(Some(0)), 1 := Weak(Some(0))]
    ensures run[2].blocks == map[0 := Block(1, 2, 0, 0)]
    ensures run[5] == State(map[1 := Weak(Some(0))], map[0 := Block(0, 1, 1, 0)], map[])
  {
    hide Enabled, Apply;
    IsObserved();
    IsGone();
    IsDeleted();
    run := [State(map[], map[], map[]), OWNED, OBSERVED, GONE, DELETED, EXPIRED];
  }
}
