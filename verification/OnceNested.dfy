/**
 Constructors that call other once-initialised objects.

 A call made by a constructor is a call of its own, in a frame of its own, and the
 frame it was made in stands still until it returns; apart from that the frames are
 the threads of the simple model, and all that holds in every run there holds here.
 `uses` says which cells the constructor of each cell may call.
 */
module OnceNested {
  import opened Wrappers
  import opened Once

  datatype Nest = Nest(
    s: State,
    uses: seq<set<nat>>,
    caller: seq<Option<nat>>,       // per frame: where its call was made
    // history of this epoch: the constructor of the first cell called the second and
    // got its object; in `relied` it was registered by then
    got: set<(nat, nat)>,
    relied: set<(nat, nat)>)

  datatype Move = Outer(step: Step) | Inner(t: nat, u: nat, cell: nat)

  predicate Active(n: Nest, t: nat) {
    t < |n.s.pcs| && !n.s.pcs[t].Idle?
  }

  predicate CalledFrom(n: Nest, u: nat, t: nat) {
    Active(n, u) && u < |n.caller| && n.caller[u] == Some(t)
  }

  predicate StandsStill(n: Nest, t: nat) {
    exists u :: 0 <= u < |n.caller| && CalledFrom(n, u, t)
  }

  predicate CanMove(n: Nest, m: Move) {
    match m
    case Outer(step) => Enabled(n.s, step) && (IsCallStep(step) ==> !StandsStill(n, step.t))
    case Inner(t, u, cell) =>
      && At(n.s, t) && n.s.pcs[t].Constructing? && !StandsStill(n, t)
      && n.s.pcs[t].c < |n.uses| && cell in n.uses[n.s.pcs[t].c]
      && Enabled(n.s, Call(u, cell))
  }

  /** The step of the simple model that a move is. */
  function StepOf(m: Move): Step {
    match m
    case Outer(step) => step
    case Inner(_, u, cell) => Call(u, cell)
  }

  /** The pair of cells when a call made by a constructor returns. */
  function Returned(n: Nest, step: Step): Option<(nat, nat)>
    requires Enabled(n.s, step)
  {
    if IsCallStep(step) && step.t < |n.caller| && n.caller[step.t].Some? && !Active(n.(s := Apply(n.s, step)), step.t)
       && n.caller[step.t].value < |n.s.pcs| && n.s.pcs[n.caller[step.t].value].Constructing?
    then Some((n.s.pcs[n.caller[step.t].value].c, n.s.pcs[step.t].c))
    else None
  }

  function Moved(n: Nest, m: Move): Nest
    requires CanMove(n, m) && |n.caller| == |n.s.pcs|
  {
    var s' := Apply(n.s, StepOf(m));
    match m
    case Inner(t, u, _) => n.(s := s', caller := n.caller[u := Some(t)])
    case Outer(Call(t, _)) => n.(s := s', caller := n.caller[t := None])
    case Outer(EndExit) => n.(s := s', got := {}, relied := {})
    case Outer(step) =>
      var r := Returned(n, step);
      if r.None? then n.(s := s')
      else n.(s := s', got := n.got + {r.value},
              relied := if r.value.1 in s'.stack then n.relied + {r.value} else n.relied)
  }

  predicate NestInit(n: Nest) {
    && Init(n.s) && |n.caller| == |n.s.pcs| && |n.uses| == |n.s.cells|
    && (forall c, d | 0 <= c < |n.uses| && d in n.uses[c] :: d < |n.uses|)
    && n.got == {} && n.relied == {}
  }

  ghost predicate NestRun(run: seq<Nest>) {
    && |run| > 0
    && NestInit(run[0])
    && forall i | 0 <= i < |run| - 1 :: NestNext(run[i], run[i + 1])
  }

  ghost predicate NestNext(n: Nest, n': Nest) {
    |n.caller| == |n.s.pcs| && exists m :: CanMove(n, m) && n' == Moved(n, m)
  }

  // ----- The invariant -----

  /** `x` comes before every `y`. */
  ghost predicate Precedes(a: seq<nat>, x: nat, y: nat) {
    exists i :: 0 <= i < |a| && a[i] == x && y !in a[..i + 1]
  }

  /** A call made by a constructor keeps it constructing. */
  predicate FrameInv(n: Nest, u: nat)
    requires u < |n.caller|
  {
    Active(n, u) && n.caller[u].Some? ==>
      var t := n.caller[u].value;
      && t < |n.s.pcs| && n.s.pcs[t].Constructing?
      && n.s.pcs[t].c < |n.uses| && n.s.pcs[u].c in n.uses[n.s.pcs[t].c]
  }

  ghost predicate NestInv(n: Nest) {
    && Inv(n.s) && |n.caller| == |n.s.pcs| && |n.uses| == |n.s.cells|
    && (forall c, d | 0 <= c < |n.uses| && d in n.uses[c] :: d < |n.uses|)
    && (forall u | 0 <= u < |n.caller| :: FrameInv(n, u))
    && n.relied <= n.got
    && (forall p | p in n.relied :: Precedes(n.s.registered, p.1, p.0))
  }

  /** Every move is a step of the simple model. */
  lemma MoveIsStep(n: Nest, m: Move)
    requires CanMove(n, m) && |n.caller| == |n.s.pcs|
    ensures Enabled(n.s, StepOf(m)) && Moved(n, m).s == Apply(n.s, StepOf(m))
  {
  }

  /** A step concerns one frame, which stays with its cell until it returns. */
  lemma StepTouchesOne(s: State, step: Step, u: nat)
    requires Enabled(s, step) && u < |s.pcs|
    ensures |Apply(s, step).pcs| == |s.pcs| && |Apply(s, step).cells| == |s.cells|
    ensures !(IsCallStep(step) || step.Call?) || step.t != u ==> Apply(s, step).pcs[u] == s.pcs[u]
    ensures IsCallStep(step) && step.t == u ==>
              !s.pcs[u].Idle? && (Apply(s, step).pcs[u].Idle? || Apply(s, step).pcs[u].c == s.pcs[u].c)
    ensures step.Call? && step.t == u ==> s.pcs[u].Idle? && Apply(s, step).pcs[u] == Entered(step.cell)
  {
  }

  lemma MoveKeepsFrame(n: Nest, m: Move, u: nat)
    requires NestInv(n) && CanMove(n, m) && u < |n.caller|
    ensures FrameInv(Moved(n, m), u)
  {
    var (step, n') := (StepOf(m), Moved(n, m));
    hide Inv, Precedes;
    MoveIsStep(n, m);
    CallersStay(n, m, u);
    hide Moved, Returned;
    assert FrameInv(n, u);
    StepTouchesOne(n.s, step, u);
    if Active(n', u) && n'.caller[u].Some? {
      var t := n'.caller[u].value;
      if m.Inner? && m.u == u {
        StepTouchesOne(n.s, step, t);
      } else if Active(n, u) {
        assert CalledFrom(n, u, t);
        StepTouchesOne(n.s, step, t);
      }
    }
    hide Apply, Enabled;
  }

  /** Who called whom changes only with a call. */
  lemma CallersStay(n: Nest, m: Move, u: nat)
    requires CanMove(n, m) && |n.caller| == |n.s.pcs| && u < |n.caller|
    ensures var n' := Moved(n, m);
            && |n'.caller| == |n.caller| && n'.uses == n.uses
            && n'.caller[u] == if m.Inner? && m.u == u then Some(m.t)
                               else if m.Outer? && m.step.Call? && m.step.t == u then None
                               else n.caller[u]
  {
  }

  lemma PrecedesLonger(a: seq<nat>, b: seq<nat>, x: nat, y: nat)
    requires Precedes(a, x, y) && a <= b
    ensures Precedes(b, x, y)
  {
    var i :| 0 <= i < |a| && a[i] == x && y !in a[..i + 1];
    assert b[..i + 1] == a[..i + 1] && b[i] == a[i];
  }

  lemma RegisteredGrows(s: State, step: Step)
    requires Enabled(s, step) && !step.EndExit?
    ensures s.registered <= Apply(s, step).registered
  {
  }

  /** A cell under construction is not registered. */
  lemma NotYetRegistered(s: State, t: nat)
    requires Inv(s) && t < |s.pcs| && s.pcs[t].Constructing?
    ensures s.pcs[t].c !in s.registered && s.registered == s.stack
  {
    assert ThreadInv(s, t);
    assert s.stack + [] == s.stack && Reverse([]) == [];
    assert forall i | 0 <= i < |s.stack| :: s.cells[s.stack[i]].word.Created?;
  }

  lemma ReliedPrecedes(s: State, t: nat, d: nat)
    requires Inv(s) && t < |s.pcs| && s.pcs[t].Constructing? && d in s.stack
    ensures Precedes(s.registered, d, s.pcs[t].c)
  {
    NotYetRegistered(s, t);
    var i :| 0 <= i < |s.stack| && s.stack[i] == d;
    assert s.pcs[t].c !in s.registered[..i + 1];
  }

  /** What is added to the two histories, and that they are kept to the end of exit. */
  lemma HistoryOfMove(n: Nest, m: Move)
    requires CanMove(n, m) && |n.caller| == |n.s.pcs| && n.relied <= n.got
    ensures !StepOf(m).EndExit? ==> n.relied <= Moved(n, m).relied && n.got <= Moved(n, m).got
    ensures Moved(n, m).relied <= Moved(n, m).got
    ensures StepOf(m).EndExit? ==> Moved(n, m).relied == {}
    ensures forall p | p in Moved(n, m).relied ::
              p in n.relied || (m.Outer? && Returned(n, m.step) == Some(p) && p.1 in Moved(n, m).s.stack)
  {
  }

  lemma MoveKeepsRelied(n: Nest, m: Move, p: (nat, nat))
    requires NestInv(n) && CanMove(n, m) && p in Moved(n, m).relied
    ensures Precedes(Moved(n, m).s.registered, p.1, p.0)
  {
    hide Inv, Moved, Precedes;
    var (step, s') := (StepOf(m), Moved(n, m).s);
    MoveIsStep(n, m);
    HistoryOfMove(n, m);
    RegisteredGrows(n.s, step);
    if p in n.relied {
      PrecedesLonger(n.s.registered, s'.registered, p.1, p.0);
    } else {
      var t := n.caller[step.t].value;
      StepKeepsInv(n.s, step);
      StepTouchesOne(n.s, step, t);
      hide Enabled, Apply;
      ReliedPrecedes(s', t, p.1);
    }
  }

  lemma MoveKeepsNestInv(n: Nest, m: Move)
    requires NestInv(n) && CanMove(n, m)
    ensures NestInv(Moved(n, m))
  {
    var n' := Moved(n, m);
    MoveIsStep(n, m);
    HistoryOfMove(n, m);
    hide Inv, Moved, Precedes, FrameInv;
    StepKeepsInv(n.s, StepOf(m));
    forall u | 0 <= u < |n'.caller| ensures FrameInv(n', u) {
      SameFrames(n, m);
      MoveKeepsFrame(n, m, u);
    }
    forall p | p in n'.relied ensures Precedes(n'.s.registered, p.1, p.0) {
      MoveKeepsRelied(n, m, p);
    }
    SameFrames(n, m);
  }

  lemma SameFrames(n: Nest, m: Move)
    requires CanMove(n, m) && |n.caller| == |n.s.pcs|
    ensures var n' := Moved(n, m);
            |n'.caller| == |n.caller| == |n'.s.pcs| && n'.uses == n.uses && |n'.s.cells| == |n.s.cells|
  {
    MoveIsStep(n, m);
  }

  lemma {:induction false} NestRunKeepsInv(run: seq<Nest>, i: nat)
    requires NestRun(run) && i < |run|
    ensures NestInv(run[i])
  {
    if i == 0 {
      InitInv(run[0].s);
    } else {
      NestRunKeepsInv(run, i - 1);
      assert NestNext(run[i - 1], run[i - 1 + 1]);
      var m :| CanMove(run[i - 1], m) && run[i] == Moved(run[i - 1], m);
      MoveKeepsNestInv(run[i - 1], m);
    }
  }

  /** A constructor makes one call at a time. */
  predicate OneCallEach(n: Nest) {
    forall u, v | 0 <= u < |n.caller| && 0 <= v < |n.caller| && Active(n, u) && Active(n, v) ::
      n.caller[u].Some? && n.caller[u] == n.caller[v] ==> u == v
  }

  lemma MoveKeepsOneCall(n: Nest, m: Move)
    requires OneCallEach(n) && CanMove(n, m) && |n.caller| == |n.s.pcs|
    ensures OneCallEach(Moved(n, m)) && |Moved(n, m).caller| == |Moved(n, m).s.pcs|
  {
    var n' := Moved(n, m);
    SameFrames(n, m);
    MoveIsStep(n, m);
    forall u, v | 0 <= u < |n'.caller| && 0 <= v < |n'.caller| && Active(n', u) && Active(n', v)
      ensures n'.caller[u].Some? && n'.caller[u] == n'.caller[v] ==> u == v
    {
      StepTouchesOne(n.s, StepOf(m), u);
      StepTouchesOne(n.s, StepOf(m), v);
      CallersStay(n, m, u);
      CallersStay(n, m, v);
      hide Moved, Apply, Enabled;
      assert m.Inner? ==> !CalledFrom(n, u, m.t) && !CalledFrom(n, v, m.t);
    }
  }

  lemma {:induction false} CallsOneAtATime(run: seq<Nest>, i: nat)
    requires NestRun(run) && i < |run|
    ensures OneCallEach(run[i]) && |run[i].caller| == |run[i].s.pcs|
  {
    if i > 0 {
      CallsOneAtATime(run, i - 1);
      assert NestNext(run[i - 1], run[i - 1 + 1]);
      var m :| CanMove(run[i - 1], m) && run[i] == Moved(run[i - 1], m);
      MoveKeepsOneCall(run[i - 1], m);
    }
  }

  /** Constructors that call change nothing in what every run of the simple model
      guarantees: the states are those of one of its runs. */
  lemma NestRunIsRun(run: seq<Nest>) returns (plain: seq<State>)
    requires NestRun(run)
    ensures IsRun(plain) && |plain| == |run| && forall i | 0 <= i < |run| :: plain[i] == run[i].s
  {
    plain := seq(|run|, i requires 0 <= i < |run| => run[i].s);
    forall i | 0 <= i < |plain| - 1 ensures Next(plain[i], plain[i + 1]) {
      assert NestNext(run[i], run[i + 1]);
      var m :| CanMove(run[i], m) && run[i + 1] == Moved(run[i], m);
      MoveIsStep(run[i], m);
    }
  }

  // ----- Frames that wait for each other -----

  /** A constructor waits for the call it made, a spinning call for the creator. */
  predicate WaitsFor(n: Nest, t: nat, u: nat) {
    && Active(n, t) && Active(n, u)
    && if n.s.pcs[t].Spinning?
       then n.s.pcs[t].c < |n.s.cells| && n.s.cells[n.s.pcs[t].c].word.Creating?
            && n.s.cells[n.s.pcs[t].c].creator == Some(u)
       else n.s.pcs[t].Constructing? && CalledFrom(n, u, t)
  }

  /** Calls in progress each of which waits for another of them. */
  ghost predicate Knot(n: Nest, frames: set<nat>) {
    frames != {} && forall t | t in frames :: WaitsForOne(n, t, frames)
  }

  ghost predicate WaitsForOne(n: Nest, t: nat, frames: set<nat>) {
    exists u :: u in frames && WaitsFor(n, t, u)
  }

  lemma OneWaitedFor(n: Nest, frames: set<nat>, t: nat) returns (u: nat)
    requires Knot(n, frames) && t in frames
    ensures u in frames && WaitsFor(n, t, u) && Active(n, t) && Active(n, u)
  {
    assert WaitsForOne(n, t, frames);
    u :| u in frames && WaitsFor(n, t, u);
  }

  lemma WaitingStays(n: Nest, m: Move, t: nat, u: nat, v: nat)
    requires NestInv(n) && CanMove(n, m) && WaitsFor(n, t, u) && WaitsFor(n, u, v)
    ensures WaitsFor(Moved(n, m), t, u) && Moved(n, m).s.pcs[t] == n.s.pcs[t]
  {
    var step := StepOf(m);
    hide Precedes;
    assert ThreadInv(n.s, t) && ThreadInv(n.s, u);
    MoveIsStep(n, m);
    CallersStay(n, m, u);
    WaitingDoesNotMove(n, m, t, u);
    WaitingDoesNotMove(n, m, u, v);
    StepTouchesOne(n.s, step, t);
    StepTouchesOne(n.s, step, u);
    hide Moved, Returned;
    if n.s.pcs[t].Spinning? {
      CreatedCellStays(n.s, step, n.s.pcs[t].c, u);
    }
  }

  lemma WaitingDoesNotMove(n: Nest, m: Move, t: nat, u: nat)
    requires NestInv(n) && CanMove(n, m) && WaitsFor(n, t, u)
    ensures !((IsCallStep(StepOf(m)) || StepOf(m).Call?) && StepOf(m).t == t)
    ensures !StepOf(m).BeginExit? && !StepOf(m).RunCallback? && !StepOf(m).EndExit?
  {
    assert ThreadInv(n.s, t);
    if n.s.pcs[t].Constructing? {
      assert StandsStill(n, t);
    }
  }

  /** Only its creator moves a cell on. */
  lemma CreatedCellStays(s: State, step: Step, c: nat, u: nat)
    requires Inv(s) && Enabled(s, step) && c < |s.cells|
    requires s.cells[c].word.Creating? && s.cells[c].creator == Some(u)
    requires (IsCallStep(step) || step.Call?) && step.t != u
    ensures Apply(s, step).cells[c].word.Creating? && Apply(s, step).cells[c].creator == Some(u)
  {
    if IsCallStep(step) {
      assert ThreadInv(s, step.t);
    }
  }

  /** A call in progress has not taken a step. */
  predicate SamePlace(n: Nest, n': Nest, t: nat) {
    Active(n, t) && Active(n', t) && n'.s.pcs[t] == n.s.pcs[t]
  }

  /** A knot is never untied: none of its calls ever takes another step. */
  lemma KnotStays(n: Nest, m: Move, frames: set<nat>)
    requires NestInv(n) && CanMove(n, m) && Knot(n, frames)
    ensures Knot(Moved(n, m), frames)
    ensures forall t | t in frames :: SamePlace(n, Moved(n, m), t)
  {
    hide Inv, FrameInv, Precedes, WaitsFor, WaitsForOne, CanMove, Moved, SamePlace;
    forall t | t in frames
      ensures SamePlace(n, Moved(n, m), t) && WaitsForOne(Moved(n, m), t, frames)
    {
      FrameStays(n, m, frames, t);
    }
  }

  lemma FrameStays(n: Nest, m: Move, frames: set<nat>, t: nat)
    requires NestInv(n) && CanMove(n, m) && Knot(n, frames) && t in frames
    ensures SamePlace(n, Moved(n, m), t) && WaitsForOne(Moved(n, m), t, frames)
  {
    hide Knot, WaitsFor, Inv, FrameInv, Precedes, CanMove, Moved;
    var u := OneWaitedFor(n, frames, t);
    var v := OneWaitedFor(n, frames, u);
    WaitingStays(n, m, t, u, v);
    ActiveWaits(Moved(n, m), t, u);
  }

  lemma ActiveWaits(n: Nest, t: nat, u: nat)
    requires WaitsFor(n, t, u)
    ensures Active(n, t) && Active(n, u)
  {
  }

  /** A call in progress can take a step or waits for another. */
  lemma MovesOrWaits(n: Nest, t: nat)
    requires NestInv(n) && Active(n, t)
    ensures (exists step :: IsCallStep(step) && CanMove(n, Outer(step))) || (exists u :: WaitsFor(n, t, u))
  {
    hide Precedes;
    assert ThreadInv(n.s, t);
    var (pc, cell) := (n.s.pcs[t], n.s.cells[n.s.pcs[t].c]);
    assert CellInv(n.s, pc.c);
    if pc.Spinning? && cell.word.Creating? {
      assert WaitsFor(n, t, cell.creator.value);
    } else if u :| 0 <= u < |n.caller| && CalledFrom(n, u, t) {
      assert FrameInv(n, u);
      assert WaitsFor(n, t, u);
    } else {
      var step := if pc.Entered? then Load(t)
        else if pc.MustSwap? then CompareAndSwap(t)
        else if pc.Constructing? then Construct(t)
        else if pc.Built? && cell.kind.Lazy? then StoreInstance(t)
        else if pc.Built? || pc.Stored? then Publish(t)
        else if pc.Registering? then Register(t)
        else if pc.Spinning? then Spin(t)
        else Read(t);
      assert CanMove(n, Outer(step));
    }
  }

  /** If no call in progress can go on, they are all in a knot. */
  lemma StuckMeansKnot(n: Nest) returns (frames: set<nat>)
    requires NestInv(n) && exists t :: Active(n, t)
    requires forall step :: IsCallStep(step) ==> !CanMove(n, Outer(step))
    ensures Knot(n, frames)
  {
    hide NestInv, CanMove;
    frames := set t | 0 <= t < |n.s.pcs| && Active(n, t);
    forall t | t in frames ensures WaitsForOne(n, t, frames) {
      MovesOrWaits(n, t);
      var u :| WaitsFor(n, t, u);
      assert u in frames;
    }
    var t :| Active(n, t);
    assert t in frames;
  }

  // ----- Knots come from circles of constructors -----

  /** The constructor of each cell calls the next, and that of the last the first. */
  predicate Circle(uses: seq<set<nat>>, cells: seq<nat>) {
    && cells != []
    && (forall i | 0 <= i < |cells| :: cells[i] < |uses|)
    && (forall i | 0 <= i < |cells| - 1 :: cells[i + 1] in uses[cells[i]])
    && cells[0] in uses[cells[|cells| - 1]]
  }

  /** A way from cell to cell along what the constructors call. */
  predicate Way(uses: seq<set<nat>>, cells: seq<nat>) {
    && cells != []
    && (forall i | 0 <= i < |cells| :: cells[i] < |uses|)
    && (forall i | 0 <= i < |cells| - 1 :: cells[i + 1] in uses[cells[i]])
  }

  lemma {:induction false} DistinctIsShort(cells: seq<nat>, n: nat)
    requires Distinct(cells) && forall i | 0 <= i < |cells| :: cells[i] < n
    ensures |cells| <= n
    decreases n
  {
    if cells != [] {
      assert cells[0] < n;
      if i :| 0 <= i < |cells| && cells[i] == n - 1 {
        DistinctIsShort(cells[..i] + cells[i + 1..], n - 1);
      } else {
        DistinctIsShort(cells, n - 1);
      }
    }
  }

  /** Following who waits for whom inside a knot leads back to a cell seen before. */
  lemma {:induction false} FollowKnot(n: Nest, frames: set<nat>, t: nat, way: seq<nat>) returns (circle: seq<nat>)
    requires NestInv(n) && Knot(n, frames) && t in frames && Active(n, t)
    requires Way(n.uses, way) && Distinct(way) && way[|way| - 1] == n.s.pcs[t].c
    ensures Circle(n.uses, circle)
    decreases |n.uses| - |way|
  {
    hide NestInv, Knot;
    var u := Child(n, frames, t);
    var (c, d) := (n.s.pcs[t].c, n.s.pcs[u].c);
    if i :| 0 <= i < |way| && way[i] == d {
      circle := way[i..];
    } else {
      var longer := way + [d];
      DistinctIsShort(longer, |n.uses|);
      circle := FollowKnot(n, frames, u, longer);
    }
  }

  /** The call in the knot that the constructor of a frame's cell has made. */
  lemma Child(n: Nest, frames: set<nat>, t: nat) returns (u: nat)
    requires NestInv(n) && Knot(n, frames) && t in frames && Active(n, t)
    ensures u in frames && Active(n, u)
    ensures n.s.pcs[t].c < |n.uses| && n.s.pcs[u].c in n.uses[n.s.pcs[t].c] && n.s.pcs[u].c < |n.uses|
  {
    hide NestInv, Knot, WaitsFor;
    var v := OneWaitedFor(n, frames, t);
    var w := OneWaitedFor(n, frames, v);
    WaitingChain(n, t, v, w);
    u := if n.s.pcs[t].Spinning? then w else v;
  }

  lemma WaitingChain(n: Nest, t: nat, v: nat, w: nat)
    requires NestInv(n) && WaitsFor(n, t, v) && WaitsFor(n, v, w)
    ensures var u := if n.s.pcs[t].Spinning? then w else v;
            && Active(n, u) && n.s.pcs[t].c < |n.uses|
            && n.s.pcs[u].c in n.uses[n.s.pcs[t].c] && n.s.pcs[u].c < |n.uses|
  {
    hide Precedes;
    assert ThreadInv(n.s, t) && ThreadInv(n.s, v);
    if n.s.pcs[t].Spinning? {
      assert CellInv(n.s, n.s.pcs[t].c);
      assert FrameInv(n, w);
    } else {
      assert FrameInv(n, v);
    }
  }

  lemma KnotMeansCircle(n: Nest, frames: set<nat>) returns (circle: seq<nat>)
    requires NestInv(n) && Knot(n, frames)
    ensures Circle(n.uses, circle)
  {
    hide NestInv, WaitsFor, WaitsForOne, Circle;
    var t :| t in frames;
    circle := KnotHasCircle(n, frames, t);
  }

  lemma KnotHasCircle(n: Nest, frames: set<nat>, t: nat) returns (circle: seq<nat>)
    requires NestInv(n) && Knot(n, frames) && t in frames
    ensures Circle(n.uses, circle)
  {
    hide NestInv, Knot, WaitsFor, Circle;
    var u := OneWaitedFor(n, frames, t);
    u := Child(n, frames, t);
    circle := FollowKnot(n, frames, t, [n.s.pcs[t].c]);
  }

  // ----- A circle of constructors ties a knot -----

  ghost predicate Reachable(n: Nest) {
    exists run :: NestRun(run) && run[|run| - 1] == n
  }

  lemma MoveReaches(n: Nest, m: Move) returns (n': Nest)
    requires Reachable(n) && |n.caller| == |n.s.pcs| && CanMove(n, m)
    ensures Reachable(n') && n' == Moved(n, m) && |n'.caller| == |n'.s.pcs| == |n.s.pcs|
  {
    n' := Moved(n, m);
    SameFrames(n, m);
    hide CanMove, Moved, NestInit;
    var run :| NestRun(run) && run[|run| - 1] == n;
    var longer := run + [n'];
    forall i | 0 <= i < |longer| - 1 ensures NestNext(longer[i], longer[i + 1]) {
      if i < |run| - 1 {
        assert NestNext(run[i], run[i + 1]);
      }
    }
    assert NestRun(longer);
  }

  predicate HasKinds(n: Nest, kinds: seq<Kind>) {
    |n.s.cells| == |kinds| && forall c | 0 <= c < |kinds| :: n.s.cells[c].kind == kinds[c]
  }

  /** One thread, deep in constructors: the frames from 0 on construct the cells of
      `way`, each called by the one before, and nothing else has happened. */
  ghost predicate Deep(n: Nest, kinds: seq<Kind>, uses: seq<set<nat>>, way: seq<nat>, frames: nat) {
    && Reachable(n) && n.uses == uses && |kinds| == |uses| && HasKinds(n, kinds)
    && |n.caller| == |n.s.pcs| == frames && |way| <= frames && !n.s.exiting
    && (forall i | 0 <= i < |way| ::
          && way[i] < |uses| && n.s.pcs[i] == Constructing(way[i])
          && n.caller[i] == (if i == 0 then None else Some(i - 1))
          && n.s.cells[way[i]].word.Creating? && n.s.cells[way[i]].creator == Some(i))
    && (forall i | |way| <= i < frames :: n.s.pcs[i].Idle?)
    && (forall c | 0 <= c < |uses| && c !in way :: n.s.cells[c].word.Empty?)
  }

  predicate Follows(uses: seq<set<nat>>, way: seq<nat>, c: nat) {
    c < |uses| && (way != [] ==> way[|way| - 1] < |uses| && c in uses[way[|way| - 1]])
  }

  /** The next call begins, and finds no instance. */
  lemma NextCall(n: Nest, kinds: seq<Kind>, uses: seq<set<nat>>, way: seq<nat>, frames: nat, c: nat) returns (n': Nest)
    requires Deep(n, kinds, uses, way, frames) && |way| < frames && Follows(uses, way, c)
    ensures Reachable(n') && n'.uses == uses && HasKinds(n', kinds) && |n'.caller| == |n'.s.pcs| == frames
    ensures !n'.s.exiting && n'.s.cells == n.s.cells
    ensures n'.s.pcs == n.s.pcs[|way| := MustSwap(c)]
    ensures n'.caller == n.caller[|way| := if way == [] then None else Some(|way| - 1)]
  {
    hide Reachable;
    var k := |way|;
    var call := if way == [] then Outer(Call(0, c)) else Inner(k - 1, k, c);
    LastGoesOn(n, k);
    n' := MoveReaches(n, call);
    LastGoesOn(n', k + 1);
    n' := MoveReaches(n', Outer(Load(k)));
    assert n.s.pcs[k := Entered(c)][k := MustSwap(c)] == n.s.pcs[k := MustSwap(c)];
  }

  /** The frames below `k` were called one by the other: the last one has called none. */
  lemma LastGoesOn(n: Nest, k: nat)
    requires k <= |n.s.pcs| == |n.caller|
    requires forall i | 0 <= i < k :: n.caller[i] == if i == 0 then None else Some(i - 1)
    requires forall i | k <= i < |n.s.pcs| :: n.s.pcs[i].Idle?
    ensures k > 0 ==> !StandsStill(n, k - 1)
    ensures !StandsStill(n, k)
  {
    forall u | 0 <= u < |n.caller| ensures !CalledFrom(n, u, k) && (k > 0 ==> !CalledFrom(n, u, k - 1)) {
      if u < k {
        assert n.caller[u] == if u == 0 then None else Some(u - 1);
      }
    }
  }

  /** The compare-and-swap that follows. */
  lemma Swaps(n: Nest, k: nat, c: nat) returns (n': Nest)
    requires Reachable(n) && |n.caller| == |n.s.pcs| && k < |n.s.pcs| && n.s.pcs[k] == MustSwap(c)
    requires c < |n.s.cells| && !StandsStill(n, k)
    ensures Reachable(n') && n'.uses == n.uses && n'.caller == n.caller && n'.s.exiting == n.s.exiting
    ensures var cell := n.s.cells[c];
            if cell.word.Empty?
            then n'.s.pcs == n.s.pcs[k := Constructing(c)]
                 && n'.s.cells == n.s.cells[c := cell.(word := Creating, creator := Some(k))]
            else n'.s.pcs == n.s.pcs[k := Spinning(c)] && n'.s.cells == n.s.cells
  {
    hide Reachable;
    n' := MoveReaches(n, Outer(CompareAndSwap(k)));
  }

  /** If its cell is not under construction, it is now. */
  lemma Deepens(n: Nest, kinds: seq<Kind>, uses: seq<set<nat>>, way: seq<nat>, frames: nat, c: nat) returns (n': Nest)
    requires Deep(n, kinds, uses, way, frames) && |way| < frames && Follows(uses, way, c) && c !in way
    ensures Deep(n', kinds, uses, way + [c], frames)
  {
    hide Reachable, StandsStill, CanMove, Moved;
    var k := |way|;
    n' := NextCall(n, kinds, uses, way, frames, c);
    LastGoesOn(n', k + 1);
    n' := Swaps(n', k, c);
    forall d | 0 <= d < |uses| && d !in way + [c] ensures n'.s.cells[d].word.Empty? {
      assert d !in way && d != c;
    }
    forall i | 0 <= i < k ensures way[i] != c && n'.s.cells[way[i]] == n.s.cells[way[i]] {
      assert way[i] in way;
    }
  }

  /** If it is, the call spins for ever, and all of them are in a knot. */
  lemma Closes(n: Nest, kinds: seq<Kind>, uses: seq<set<nat>>, way: seq<nat>, frames: nat, c: nat)
    returns (n': Nest, knot: set<nat>)
    requires Deep(n, kinds, uses, way, frames) && |way| < frames && Follows(uses, way, c) && c in way
    ensures Reachable(n') && n'.uses == uses && HasKinds(n', kinds) && Knot(n', knot)
  {
    hide Reachable, StandsStill, CanMove, Moved;
    var k := |way|;
    n' := NextCall(n, kinds, uses, way, frames, c);
    LastGoesOn(n', k + 1);
    n' := Swaps(n', k, c);
    var j: nat :| j < k && way[j] == c;
    hide Deep, HasKinds;
    knot := TiesKnot(n', k, way + [c], j);
  }

  /** Frames from 0 to `k`, each called by the one before, the last one spinning on the
      cell that frame `j` is constructing. */
  lemma TiesKnot(n: Nest, k: nat, way: seq<nat>, j: nat) returns (knot: set<nat>)
    requires j < k < |n.s.pcs| == |n.caller| && |way| == k + 1 && way[k] < |n.s.cells|
    requires forall t | 0 <= t < k :: n.s.pcs[t] == Constructing(way[t]) && n.caller[t + 1] == Some(t)
    requires n.s.pcs[k] == Spinning(way[k])
    requires n.s.cells[way[k]].word.Creating? && n.s.cells[way[k]].creator == Some(j)
    ensures Knot(n, knot)
  {
    knot := UpTo(k);
    forall t | t in knot ensures WaitsForOne(n, t, knot) {
      var u := if t < k then t + 1 else j;
      assert u in knot && WaitsFor(n, t, u);
    }
    assert 0 in knot;
  }

  function UpTo(k: nat): (frames: set<nat>)
    ensures forall t: nat :: t in frames <==> t <= k
  {
    if k == 0 then {0} else UpTo(k - 1) + {k}
  }

  /** Before the first call. */
  lemma Fresh(kinds: seq<Kind>, uses: seq<set<nat>>, frames: nat) returns (n: Nest)
    requires |kinds| == |uses| && forall c, d | 0 <= c < |uses| && d in uses[c] :: d < |uses|
    ensures NestInit(n) && n.s.epoch == 0 && Deep(n, kinds, uses, [], frames)
  {
    var cells := seq(|kinds|, c requires 0 <= c < |kinds| => Cell(kinds[c], Empty, None, None));
    var s := State(cells, [], seq(frames, _ => Idle), [], false, 0, [], [], []);
    n := Nest(s, uses, seq(frames, _ => None), {}, {});
    assert NestRun([n]);
  }

  /** One thread going round a circle of constructors comes back to a cell that is
      still under construction. */
  lemma {:induction false} GoRound(n: Nest, kinds: seq<Kind>, uses: seq<set<nat>>, circle: seq<nat>, k: nat)
    returns (n': Nest, knot: set<nat>)
    requires Circle(uses, circle) && k <= |circle| && Deep(n, kinds, uses, circle[..k], |circle| + 1)
    ensures Reachable(n') && n'.uses == uses && HasKinds(n', kinds) && Knot(n', knot)
    decreases |circle| - k
  {
    hide Deep, Knot, HasKinds;
    var way := circle[..k];
    var c := circle[if k == |circle| then 0 else k];
    assert k > 0 ==> way[k - 1] == circle[k - 1];
    assert k == |circle| ==> way[0] == c;
    if c in way {
      n', knot := Closes(n, kinds, uses, way, |circle| + 1, c);
    } else {
      n' := Deepens(n, kinds, uses, way, |circle| + 1, c);
      assert way + [c] == circle[..k + 1];
      n', knot := GoRound(n', kinds, uses, circle, k + 1);
    }
  }

  /** Some run of cells of these kinds with these constructors ties a knot. */
  ghost predicate CanKnot(kinds: seq<Kind>, uses: seq<set<nat>>) {
    exists n, frames :: Reachable(n) && n.uses == uses && HasKinds(n, kinds) && Knot(n, frames)
  }

  lemma ReachableInv(n: Nest)
    requires Reachable(n)
    ensures NestInv(n)
  {
    var run :| NestRun(run) && run[|run| - 1] == n;
    var last: nat := |run| - 1;
    NestRunKeepsInv(run, last);
  }

  /** Calls can come to wait for each other for ever exactly if constructors go round in
      a circle, the shortest being one that calls its own object. */
  lemma KnotsAreCircles(kinds: seq<Kind>, uses: seq<set<nat>>)
    requires |kinds| == |uses| && forall c, d | 0 <= c < |uses| && d in uses[c] :: d < |uses|
    ensures CanKnot(kinds, uses) <==> exists circle :: Circle(uses, circle)
  {
    hide Deep, Circle, Reachable, Knot, HasKinds, NestInv;
    if CanKnot(kinds, uses) {
      var n, frames :| Reachable(n) && n.uses == uses && HasKinds(n, kinds) && Knot(n, frames);
      ReachableInv(n);
      var circle := KnotMeansCircle(n, frames);
    }
    if circle :| Circle(uses, circle) {
      var n := Fresh(kinds, uses, |circle| + 1);
      assert circle[..0] == [];
      var n', knot := GoRound(n, kinds, uses, circle, 0);
    }
  }

  /** Without circles a call in progress never has to wait for ever: some call can
      always go on. */
  lemma NestedCallsNeverStuck(n: Nest)
    requires Reachable(n) && (exists t :: Active(n, t)) && forall circle :: !Circle(n.uses, circle)
    ensures exists step :: IsCallStep(step) && CanMove(n, Outer(step))
  {
    ReachableInv(n);
    hide Reachable, Circle, CanMove, NestInv, Active;
    if forall step :: IsCallStep(step) ==> !CanMove(n, Outer(step)) {
      var frames := StuckMeansKnot(n);
      var circle := KnotMeansCircle(n, frames);
    }
  }
}
