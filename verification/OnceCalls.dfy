/**
 What calls for once-initialised objects come to: each is answered once, for the cell
 it asked for; all calls in progress return, and exit processing ends.
 */
module OnceCalls {
  import opened Wrappers
  import opened Once

  // ----- Every call is answered -----

  /** A run together with the steps that were taken. */
  ghost predicate IsTrace(run: seq<State>, steps: seq<Step>) {
    && |run| == |steps| + 1 && Init(run[0])
    && forall i | 0 <= i < |steps| :: Enabled(run[i], steps[i]) && run[i + 1] == Apply(run[i], steps[i])
  }

  /** The cells the calls of a thread were for, in order. */
  function Asked(steps: seq<Step>, t: nat): seq<nat> {
    if steps == [] then [] else
    var (before, last) := (steps[..|steps| - 1], steps[|steps| - 1]);
    Asked(before, t) + if last.Call? && last.t == t then [last.cell] else []
  }

  /** The cells the results of a thread are of, in order. */
  function Answered(results: seq<Result>, t: nat): seq<nat> {
    if results == [] then [] else
    var (before, last) := (results[..|results| - 1], results[|results| - 1]);
    Answered(before, t) + if last.t == t then [last.cell] else []
  }

  function InProgress(pc: Pc): seq<nat> {
    if pc.Idle? then [] else [pc.c]
  }

  /** A thread's results answer its calls one by one, but for the call it is in. */
  lemma {:induction false} EveryCallIsAnswered(run: seq<State>, steps: seq<Step>, t: nat)
    requires IsTrace(run, steps) && t < |run[|steps|].pcs|
    ensures Answered(run[|steps|].results, t) + InProgress(run[|steps|].pcs[t]) == Asked(steps, t)
    decreases |steps|
  {
    hide Enabled, Apply, Answered, Asked, InProgress;
    if steps != [] {
      var n := |steps| - 1;
      assert IsTrace(run[..n + 1], steps[..n]);
      assert Enabled(run[n], steps[n]) && run[n + 1] == Apply(run[n], steps[n]);
      StepAnswers(run[n], steps[n], t);
      EveryCallIsAnswered(run[..n + 1], steps[..n], t);
      AnswersMove(run[n], steps, t);
    } else {
      NothingAsked(t);
    }
  }

  lemma NothingAsked(t: nat)
    ensures Answered([], t) + InProgress(Idle) == Asked([], t)
  {
  }

  /** A call is answered by the step that makes its thread idle, and by no other. */
  lemma StepAnswers(s: State, step: Step, t: nat)
    requires Enabled(s, step)
    ensures var s' := Apply(s, step);
            && |s'.pcs| == |s.pcs|
            && (s'.results == s.results
                || (IsCallStep(step) && |s'.results| == |s.results| + 1 && s'.results[..|s.results|] == s.results
                    && s'.results[|s.results|].t == step.t && s'.results[|s.results|].epoch == s.epoch
                    && s'.results[|s.results|].cell == s.pcs[step.t].c))
            && (t < |s.pcs| ==>
                  (if s'.results != s.results && step.t == t then [s.pcs[t].c] else []) + InProgress(s'.pcs[t])
                  == InProgress(s.pcs[t]) + (if step.Call? && step.t == t then [step.cell] else []))
  {
  }

  lemma AnswersMove(s: State, steps: seq<Step>, t: nat)
    requires steps != [] && t < |s.pcs| && Enabled(s, steps[|steps| - 1])
    requires Answered(s.results, t) + InProgress(s.pcs[t]) == Asked(steps[..|steps| - 1], t)
    ensures var s' := Apply(s, steps[|steps| - 1]);
            |s'.pcs| == |s.pcs| && Answered(s'.results, t) + InProgress(s'.pcs[t]) == Asked(steps, t)
  {
    var step := steps[|steps| - 1];
    StepAnswers(s, step, t);
    hide Apply, InProgress, Enabled;
    var s' := Apply(s, step);
    var (answered, asked) := (if s'.results != s.results && step.t == t then [s.pcs[t].c] else [],
                              if step.Call? && step.t == t then [step.cell] else []);
    AnsweredLonger(s.results, s'.results, t);
    hide Answered;
    Regroup(Answered(s.results, t), answered, InProgress(s'.pcs[t]), InProgress(s.pcs[t]), asked);
  }

  lemma AnsweredLonger(before: seq<Result>, after: seq<Result>, t: nat)
    ensures after == before ==> Answered(after, t) == Answered(before, t) + []
    ensures |after| == |before| + 1 && after[..|before|] == before ==>
              Answered(after, t) ==
              Answered(before, t) + if after[|before|].t == t then [after[|before|].cell] else []
  {
  }

  lemma Regroup(a: seq<nat>, x: seq<nat>, y: seq<nat>, u: seq<nat>, v: seq<nat>)
    requires x + y == u + v
    ensures a + x + y == a + u + v
  {
    assert a + x + y == a + (x + y);
    assert a + u + v == a + (u + v);
  }

  // ----- Every call returns -----

  function Rank(pc: Pc): nat {
    match pc
    case Idle => 0
    case Entered(_) => 7
    case MustSwap(_) => 6
    case Constructing(_) => 5
    case Built(_, _) => 4
    case Stored(_, _) => 3
    case Registering(_, _) => 2
    case Spinning(_) => 2
    case Reading(_) => 1
  }

  function Ranks(pcs: seq<Pc>): nat {
    if pcs == [] then 0 else Rank(pcs[0]) + Ranks(pcs[1..])
  }

  lemma {:induction false} RanksUpdate(pcs: seq<Pc>, t: nat, pc: Pc)
    requires t < |pcs|
    ensures Ranks(pcs[t := pc]) + Rank(pcs[t]) == Ranks(pcs) + Rank(pc)
  {
    if t == 0 {
      assert pcs[t := pc][1..] == pcs[1..];
    } else {
      RanksUpdate(pcs[1..], t - 1, pc);
      assert pcs[t := pc][1..] == pcs[1..][t - 1 := pc];
    }
  }

  lemma StepLowersRank(s: State, step: Step)
    requires Enabled(s, step) && IsCallStep(step)
    ensures var s' := Apply(s, step);
            && s'.pcs == s.pcs[step.t := s'.pcs[step.t]] && Rank(s'.pcs[step.t]) < Rank(s.pcs[step.t])
            && s'.exiting == s.exiting && s'.epoch == s.epoch
  {
  }

  /** Every step of a call lowers a measure, which only the beginning of a call raises:
      the calls in progress all return. */
  lemma CallsProgress(s: State, step: Step)
    requires Enabled(s, step) && !step.Call?
    ensures if IsCallStep(step) then Ranks(Apply(s, step).pcs) < Ranks(s.pcs) else Apply(s, step).pcs == s.pcs
  {
    if IsCallStep(step) {
      StepLowersRank(s, step);
      hide Apply, Ranks, Rank, Enabled;
      RanksUpdate(s.pcs, step.t, Apply(s, step).pcs[step.t]);
    }
  }

  /** An idle thread can call for any cell, but not during exit. */
  lemma CallCanBegin(s: State, t: nat, c: nat)
    requires t < |s.pcs| && c < |s.cells|
    ensures Enabled(s, Call(t, c)) <==> !s.exiting && s.pcs[t].Idle?
  {
  }

  // ----- Exit ends -----

  /** A callback takes the cell registered last off the stack, empties it and destroys
      its object, and nothing else. */
  lemma CallbackDestroys(s: State)
    requires Inv(s) && Enabled(s, RunCallback)
    ensures var (s', c) := (Apply(s, RunCallback), s.stack[|s.stack| - 1]);
            && s'.stack + [c] == s.stack && s'.torndown == s.torndown + [c]
            && s.cells[c].instance.Some? && s.cells[c].instance.value < |s.objects|
            && s.objects[s.cells[c].instance.value] == Object(c, s.epoch, 0)
            && s'.objects == s.objects[s.cells[c].instance.value := Object(c, s.epoch, 1)]
            && s'.cells == s.cells[c := Cell(s.cells[c].kind, Empty, None, None)]
  {
    ExitHasNoCreator(s, s.stack[|s.stack| - 1]);
  }

  lemma Longer(run: seq<State>, step: Step) returns (longer: seq<State>)
    requires IsRun(run) && Enabled(run[|run| - 1], step)
    ensures IsRun(longer) && longer == run + [Apply(run[|run| - 1], step)]
  {
    longer := run + [Apply(run[|run| - 1], step)];
    hide Apply, Enabled;
    forall i | 0 <= i < |longer| - 1 ensures Next(longer[i], longer[i + 1]) {
      if i < |run| - 1 {
        assert Next(run[i], run[i + 1]);
      }
    }
  }

  /** With a call in progress, some call can go on; otherwise exit can; during exit, its
      next step. */
  lemma GoesOn(s: State) returns (step: Step)
    requires Inv(s)
    ensures Enabled(s, step) && !step.Call?
    ensures step.BeginExit? <==> !s.exiting && forall t | 0 <= t < |s.pcs| :: s.pcs[t].Idle?
    ensures step.RunCallback? || step.EndExit? <==> s.exiting
    ensures step.EndExit? <==> s.exiting && s.stack == []
  {
    if s.exiting {
      step := if s.stack == [] then EndExit else RunCallback;
    } else if t :| 0 <= t < |s.pcs| && !s.pcs[t].Idle? {
      CallsNeverStuck(s, t);
      step :| Enabled(s, step) && IsCallStep(step);
    } else {
      step := BeginExit;
    }
  }

  /** Every exit leaves no live object, no filled cell and an empty stack, and the next
      epoch begins. */
  predicate Afresh(s: State) {
    && !s.exiting && s.stack == [] && s.registered == [] && s.torndown == []
    && (forall c | 0 <= c < |s.cells| :: s.cells[c].word.Empty? && s.cells[c].instance.None?)
    && (forall p | 0 <= p < |s.objects| :: s.objects[p].destroyed == 1)
  }

  /** From wherever a run has come to, the calls in progress can return and exit can be
      processed to its end, without another call beginning. */
  lemma {:induction false} ExitCanEnd(run: seq<State>) returns (longer: seq<State>)
    requires IsRun(run)
    ensures IsRun(longer) && run <= longer && Afresh(longer[|longer| - 1])
    ensures longer[|longer| - 1].epoch == run[|run| - 1].epoch + 1
    decreases Ranks(run[|run| - 1].pcs), if run[|run| - 1].exiting then 0 else 1, |run[|run| - 1].stack|
  {
    hide Apply, Enabled, Afresh, Inv, Ranks;
    var s := run[|run| - 1];
    RunKeepsInv(run, |run| - 1);
    var step := GoesOn(s);
    longer := Longer(run, step);
    if step.EndExit? {
      EndBeginsEpoch(run);
    } else {
      MovesTowardsExit(s, step);
      longer := ExitCanEnd(longer);
    }
  }

  lemma EndBeginsEpoch(run: seq<State>)
    requires IsRun(run) && Enabled(run[|run| - 1], EndExit)
    ensures var (s, s') := (run[|run| - 1], Apply(run[|run| - 1], EndExit));
            Afresh(s') && s'.epoch == s.epoch + 1
  {
    RunKeepsInv(run, |run| - 1);
    ExitTearsDownAll(run, |run| - 1);
  }

  lemma MovesTowardsExit(s: State, step: Step)
    requires Inv(s) && Enabled(s, step) && !step.Call? && !step.EndExit?
    ensures var s' := Apply(s, step);
            && s'.epoch == s.epoch
            && (IsCallStep(step) ==> Ranks(s'.pcs) < Ranks(s.pcs))
            && (!IsCallStep(step) ==> s'.pcs == s.pcs && s'.exiting)
            && (step.BeginExit? ==> !s.exiting)
            && (step.RunCallback? ==> s.exiting && |s'.stack| == |s.stack| - 1)
  {
    CallsProgress(s, step);
    if IsCallStep(step) {
      StepLowersRank(s, step);
    }
    hide Ranks;
  }
}
