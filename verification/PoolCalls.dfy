/**
 What the worker pool's calls come to: the closures added are those the calls of Add
 were begun with, and they are executed as a plain queue would hand them out.
 */
module PoolCalls {
  import opened Wrappers
  import opened ThreadPool

  /** A run together with the steps that were taken. */
  ghost predicate IsTrace(run: seq<State>, steps: seq<Step>) {
    && |run| == |steps| + 1 && Init(run[0])
    && forall i | 0 <= i < |steps| :: Enabled(run[i], steps[i]) && run[i + 1] == Apply(run[i], steps[i])
  }

  /** What the latest Add of a producer was begun with. */
  function Argument(steps: seq<Step>, p: nat): Option<Item> {
    if steps == [] then None else
    var last := steps[|steps| - 1];
    if last.ProducerLock? && last.p == p then Some(last.item) else Argument(steps[..|steps| - 1], p)
  }

  /** A plain queue of items, what was ever added to it, what each worker took last, and
      the closures executed. */
  datatype Plain = Plain(items: seq<Item>, added: seq<Item>, hands: map<nat, Item>, executed: seq<Item>)

  /** An Add appends its argument, a worker takes the first item and executes what it
      took. */
  function PlainStep(q: Plain, step: Step, argument: Option<Item>): Plain {
    match step
    case Push(_) =>
      if argument.None? then q
      else q.(items := q.items + [argument.value], added := q.added + [argument.value])
    case Take(w) =>
      if q.items == [] then q else q.(items := q.items[1..], hands := q.hands[w := q.items[0]])
    case Execute(w) =>
      if w in q.hands && q.hands[w].Task? then q.(executed := q.executed + [q.hands[w]]) else q
    case _ => q
  }

  /** The plain queue after the same steps. */
  function InTurn(steps: seq<Step>): Plain {
    if steps == [] then Plain([], [], map[], []) else
    var (before, last) := (steps[..|steps| - 1], steps[|steps| - 1]);
    PlainStep(InTurn(before), last, if last.Push? then Argument(before, last.p) else None)
  }

  predicate InHand(pc: WorkerPc) {
    pc.Took? || pc.Signalled? || pc.Got?
  }

  predicate HandsAgree(ws: seq<WorkerPc>, hands: map<nat, Item>) {
    forall w | 0 <= w < |ws| && InHand(ws[w]) :: w in hands && ws[w].item == hands[w]
  }

  predicate ArgumentsAgree(ps: seq<ProducerPc>, steps: seq<Step>) {
    forall p | 0 <= p < |ps| && ps[p].Holding? :: Argument(steps, p) == Some(ps[p].item)
  }

  predicate AgreesWith(s: State, q: Plain) {
    s.queue == q.items && s.added == q.added && s.executed == q.executed && HandsAgree(s.workers, q.hands)
  }

  /** Whatever the interleaving, the queue, what was added and what was executed are
      those of the plain queue, with the arguments the calls were begun with. */
  lemma {:induction false} CallsHappenInTurn(run: seq<State>, steps: seq<Step>)
    requires IsTrace(run, steps)
    ensures AgreesWith(run[|steps|], InTurn(steps)) && ArgumentsAgree(run[|steps|].producers, steps)
    decreases |steps|
  {
    hide AgreesWith, ArgumentsAgree, Enabled, Apply;
    if steps != [] {
      var n := |steps| - 1;
      assert IsTrace(run[..n + 1], steps[..n]);
      CallsHappenInTurn(run[..n + 1], steps[..n]);
      assert Enabled(run[n], steps[n]) && run[n + 1] == Apply(run[n], steps[n]);
      StepKeepsArguments(run[n], steps);
      var argument := if steps[n].Push? then Argument(steps[..n], steps[n].p) else None;
      PushedIsArgument(run[n], steps[n], steps[..n]);
      StepAgrees(run[n], InTurn(steps[..n]), steps[n], argument);
    } else {
      InitAgrees(run[0]);
    }
  }

  lemma InitAgrees(s: State)
    requires Init(s)
    ensures AgreesWith(s, InTurn([])) && ArgumentsAgree(s.producers, [])
  {
  }

  lemma PushedIsArgument(s: State, step: Step, before: seq<Step>)
    requires Enabled(s, step) && ArgumentsAgree(s.producers, before)
    ensures step.Push? ==> Argument(before, step.p) == Some(s.producers[step.p].item)
  {
  }

  lemma StepKeepsArguments(s: State, steps: seq<Step>)
    requires steps != [] && Enabled(s, steps[|steps| - 1])
    requires ArgumentsAgree(s.producers, steps[..|steps| - 1])
    ensures ArgumentsAgree(Apply(s, steps[|steps| - 1]).producers, steps)
  {
  }

  lemma StepAgrees(s: State, q: Plain, step: Step, argument: Option<Item>)
    requires Enabled(s, step) && AgreesWith(s, q)
    requires step.Push? ==> argument == Some(s.producers[step.p].item)
    ensures AgreesWith(Apply(s, step), PlainStep(q, step, argument))
  {
    if step.WorkerSignal? || step.ProducerSignal? || MovesWorkerOnly(step) {
      WorkersKeepHands(s, step);
    } else if step.Take? || step.Execute? {
      HandsMove(s, step);
    }
  }

  lemma WorkersKeepHands(s: State, step: Step)
    requires Enabled(s, step) && (step.WorkerSignal? || step.ProducerSignal? || MovesWorkerOnly(step))
    ensures var s' := Apply(s, step);
            && |s'.workers| == |s.workers| && s'.queue == s.queue && s'.added == s.added && s'.executed == s.executed
            && forall w | 0 <= w < |s.workers| && InHand(s'.workers[w]) ::
                 InHand(s.workers[w]) && s.workers[w].item == s'.workers[w].item
  {
  }

  lemma HandsMove(s: State, step: Step)
    requires Enabled(s, step) && (step.Take? || step.Execute?)
    ensures var s' := Apply(s, step);
            && |s'.workers| == |s.workers| && s'.added == s.added
            && (forall w | 0 <= w < |s.workers| && w != step.w :: s'.workers[w] == s.workers[w])
            && if step.Take? then s'.workers[step.w] == Took(s.queue[0]) else !InHand(s'.workers[step.w])
  {
  }

  datatype Event = Begun | Put | Returned

  predicate Is(step: Step, p: nat, e: Event) {
    match e
    case Begun => step.ProducerLock? && step.p == p
    case Put => step == Push(p)
    case Returned => step == ProducerRelease(p)
  }

  function Count(steps: seq<Step>, p: nat, e: Event): nat {
    if steps == [] then 0
    else Count(steps[..|steps| - 1], p, e) + One(Is(steps[|steps| - 1], p, e))
  }

  predicate Balanced(pc: ProducerPc, steps: seq<Step>, p: nat) {
    && Count(steps, p, Begun) == Count(steps, p, Put) + One(pc.Holding?)
    && Count(steps, p, Begun) == Count(steps, p, Returned) + One(pc != Idle)
  }

  /** Every Add puts once and then returns. */
  lemma {:induction false} AddsPutOnce(run: seq<State>, steps: seq<Step>, p: nat)
    requires IsTrace(run, steps) && p < |run[|steps|].producers|
    ensures Balanced(run[|steps|].producers[p], steps, p)
    decreases |steps|
  {
    hide Balanced, Apply, Enabled, Count;
    if steps != [] {
      var n := |steps| - 1;
      assert IsTrace(run[..n + 1], steps[..n]);
      assert Enabled(run[n], steps[n]) && run[n + 1] == Apply(run[n], steps[n]);
      KeepsProducers(run[n], steps[n]);
      AddsPutOnce(run[..n + 1], steps[..n], p);
      BalanceStep(run[n], steps, p);
    } else {
      InitBalanced(p);
    }
  }

  lemma InitBalanced(p: nat)
    ensures Balanced(Idle, [], p)
  {
  }

  lemma KeepsProducers(s: State, step: Step)
    requires Enabled(s, step)
    ensures |Apply(s, step).producers| == |s.producers|
  {
  }

  lemma BalanceStep(s: State, steps: seq<Step>, p: nat)
    requires steps != [] && p < |s.producers| && Enabled(s, steps[|steps| - 1])
    requires Balanced(s.producers[p], steps[..|steps| - 1], p)
    ensures |Apply(s, steps[|steps| - 1]).producers| == |s.producers|
    ensures Balanced(Apply(s, steps[|steps| - 1]).producers[p], steps, p)
  {
  }
}
