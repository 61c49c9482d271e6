/**
 Constructors that call other once-initialised objects, at exit: which of two objects
 is torn down first, and whether one that a constructor got outlives what it
 constructed.
 */
module OnceTeardown {
  import opened Wrappers
  import opened Once
  import opened OnceNested

  // ----- Which of two is torn down first -----

  lemma {:induction false} ReverseAt(a: seq<nat>, k: nat)
    requires k < |a|
    ensures Reverse(a)[k] == a[|a| - 1 - k]
  {
    if k < |a| - 1 {
      ReverseAt(a[1..], k);
    }
  }

  /** What comes before in a list without repetition comes after in its reverse. */
  lemma PrecedesReversed(a: seq<nat>, x: nat, y: nat)
    requires Distinct(a) && Precedes(a, x, y) && y in a
    ensures Precedes(Reverse(a), y, x)
  {
    var i :| 0 <= i < |a| && a[i] == x && y !in a[..i + 1];
    var j :| 0 <= j < |a| && a[j] == y;
    assert forall l | 0 <= l <= i :: a[..i + 1][l] == a[l];
    var (r, k) := (Reverse(a), |a| - 1 - j);
    ReverseAt(a, k);
    assert r[k] == y;
    forall l | 0 <= l <= k ensures r[l] != x {
      ReverseAt(a, l);
    }
    assert forall l | 0 <= l < k + 1 :: r[..k + 1][l] == r[l];
  }

  /** Of two cells in a list one precedes the other, and not the other way round. */
  lemma OnePrecedes(a: seq<nat>, x: nat, y: nat)
    requires x in a && y in a && x != y
    ensures Precedes(a, x, y) <==> !Precedes(a, y, x)
  {
    var i := FirstAt(a, x);
    var j := FirstAt(a, y);
    if i < j {
      PrefixMisses(a, y, j, i + 1);
      assert Precedes(a, x, y);
    } else {
      PrefixMisses(a, x, i, j + 1);
      assert Precedes(a, y, x);
    }
    hide Precedes;
    NotBoth(a, x, y);
  }

  lemma PrefixMisses(a: seq<nat>, x: nat, i: nat, k: nat)
    requires k <= i <= |a| && x !in a[..i]
    ensures x !in a[..k]
  {
    assert a[..k] == a[..i][..k];
  }

  lemma NotBoth(a: seq<nat>, x: nat, y: nat)
    ensures !(Precedes(a, x, y) && Precedes(a, y, x))
  {
  }

  lemma {:induction false} FirstAt(a: seq<nat>, x: nat) returns (i: nat)
    requires x in a
    ensures i < |a| && a[i] == x && x !in a[..i]
  {
    if a[0] == x {
      i := 0;
    } else {
      i := FirstAt(a[1..], x);
      i := i + 1;
      assert a[..i] == [a[0]] + a[1..][..i - 1];
    }
  }

  /** When exit processing ends, of two cells the one registered first was torn down
      last. */
  lemma TornDownInReverse(n: Nest, c: nat, d: nat)
    requires Reachable(n) && CanMove(n, Outer(EndExit))
    requires c != d && c in n.s.registered && d in n.s.registered
    ensures Precedes(n.s.torndown, c, d) <==> Precedes(n.s.registered, d, c)
  {
    hide Precedes;
    var run := RunTo(n);
    hide Reachable;
    ExitTearsDownAll(run, |run| - 1);
    InReverse(n.s.registered, c);
    InReverse(n.s.registered, d);
    OnePrecedes(n.s.registered, c, d);
    OnePrecedes(n.s.torndown, c, d);
    if Precedes(n.s.registered, d, c) {
      PrecedesReversed(n.s.registered, d, c);
    } else {
      PrecedesReversed(n.s.registered, c, d);
    }
  }

  lemma {:induction false} InReverse(a: seq<nat>, x: nat)
    ensures x in Reverse(a) <==> x in a
  {
    if a != [] {
      InReverse(a[1..], x);
      assert a == [a[0]] + a[1..];
    }
  }

  /** When exit processing ends, an object that the constructor of another relied on has
      been torn down after that other one. */
  lemma ReliedIsTornDownLater(n: Nest, c: nat, d: nat)
    requires Reachable(n) && CanMove(n, Outer(EndExit)) && (c, d) in n.relied && c in n.s.registered
    ensures Precedes(n.s.torndown, c, d)
  {
    ReachableInv(n);
    hide Reachable, Precedes;
    var run := RunTo(n);
    ExitTearsDownAll(run, |run| - 1);
    assert Precedes(n.s.registered, (c, d).1, (c, d).0);
    PrecedesReversed(n.s.registered, d, c);
  }

  lemma RunTo(n: Nest) returns (run: seq<State>)
    requires Reachable(n)
    ensures IsRun(run) && run[|run| - 1] == n.s
  {
    var nested :| NestRun(nested) && nested[|nested| - 1] == n;
    hide IsRun;
    run := NestRunIsRun(nested);
  }

  /** When a call made by a constructor returns, the constructor has got the object, and
      can rely on it unless the thread that created it has published it and is about to
      register it. */
  lemma GotIsReliedOn(n: Nest, step: Step)
    requires NestInv(n) && CanMove(n, Outer(step)) && IsCallStep(step) && n.caller[step.t].Some?
    requires Moved(n, Outer(step)).s.pcs[step.t].Idle?
    ensures n.caller[step.t].value < |n.s.pcs| && n.s.pcs[n.caller[step.t].value].Constructing?
    ensures var p := (n.s.pcs[n.caller[step.t].value].c, n.s.pcs[step.t].c);
            var n' := Moved(n, Outer(step));
            && p in n'.got && p.1 < |n'.s.cells|
            && (p in n'.relied <==> p in n.relied || n'.s.cells[p.1].creator.None?)
  {
    hide Precedes;
    assert ThreadInv(n.s, step.t) && FrameInv(n, step.t);
    var (p, s') := (Returned(n, step).value, Moved(n, Outer(step)).s);
    StepKeepsInv(n.s, step);
    assert CellInv(s', p.1) && CellInv(n.s, p.1);
    if s'.cells[p.1].creator.Some? {
      assert ThreadInv(s', s'.cells[p.1].creator.value);
    }
  }

  // ----- An object published but not yet registered -----

  const USES: seq<set<nat>> := [{1}, {}]
  const UNMADE := Cell(Singleton, Empty, None, None)

  /** Two singletons; the constructor of the first calls the second.  Frames 0 and 2 are
      calls of two threads, frame 1 is for the constructor's call. */
  ghost predicate At2(n: Nest, a: Cell, b: Cell, objects: seq<Object>, x: Pc, y: Pc, z: Pc, stack: seq<nat>) {
    && Reachable(n) && n.uses == USES && |n.caller| == |n.s.pcs| == 3
    && |n.s.cells| == 2 && n.s.cells[0] == a && n.s.cells[1] == b && n.s.objects == objects
    && n.s.pcs[0] == x && n.s.pcs[1] == y && n.s.pcs[2] == z
    && n.s.stack == n.s.registered == stack && !n.s.exiting && n.s.torndown == [] && n.s.epoch == 0
  }

  /** A step of a call whose constructor is not calling. */
  lemma Goes(n: Nest, step: Step) returns (n': Nest)
    requires Reachable(n) && |n.caller| == |n.s.pcs| == 3 && Enabled(n.s, step) && IsCallStep(step)
    requires !CalledFrom(n, 0, step.t) && !CalledFrom(n, 1, step.t) && !CalledFrom(n, 2, step.t)
    ensures Reachable(n') && n' == Moved(n, Outer(step)) && |n'.caller| == |n'.s.pcs| == 3
  {
    forall u | 0 <= u < 3 ensures !CalledFrom(n, u, step.t) {
      assert u == 0 || u == 1 || u == 2;
    }
    n' := MoveReaches(n, Outer(step));
  }

  lemma FreshTwo() returns (n: Nest)
    ensures At2(n, UNMADE, UNMADE, [], Idle, Idle, Idle, [])
    ensures n.got == {} && n.relied == {} && n.caller[0].None? && n.caller[1].None? && n.caller[2].None?
  {
    var s := State([UNMADE, UNMADE], [], [Idle, Idle, Idle], [], false, 0, [], [], []);
    n := Nest(s, USES, [None, None, None], {}, {});
    assert NestInit(n);
    assert NestRun([n]);
  }

  /** One thread creates the second. */
  lemma SecondConstructed() returns (n: Nest)
    ensures At2(n, UNMADE, Cell(Singleton, Creating, None, Some(2)), [Object(1, 0, 0)],
                Idle, Idle, Built(1, 0), [])
    ensures n.got == {} && n.relied == {} && n.caller[0].None? && n.caller[1].None? && n.caller[2].None?
  {
    n := FreshTwo();
    hide Reachable, CanMove, StandsStill;
    n := CallReaches(n, 2, 1);
    n := Goes(n, Load(2));
    n := Goes(n, CompareAndSwap(2));
    n := Goes(n, Construct(2));
  }

  lemma CallReaches(n: Nest, t: nat, c: nat) returns (n': Nest)
    requires Reachable(n) && |n.caller| == |n.s.pcs| && Enabled(n.s, Call(t, c))
    ensures Reachable(n') && |n'.caller| == |n'.s.pcs|
    ensures n' == n.(s := n.s.(pcs := n.s.pcs[t := Entered(c)]), caller := n.caller[t := None])
  {
    n' := MoveReaches(n, Outer(Call(t, c)));
  }

  /** Once it is published, another thread begins to create the first. */
  lemma FirstBegun() returns (n: Nest)
    ensures At2(n, Cell(Singleton, Creating, None, Some(0)), Cell(Singleton, Created, Some(0), Some(2)),
                [Object(1, 0, 0)], Constructing(0), Idle, Registering(1, 0), [])
    ensures n.got == {} && n.relied == {} && n.caller[0].None? && n.caller[1].None? && n.caller[2].None?
  {
    n := SecondConstructed();
    hide Reachable, CanMove, StandsStill;
    n := Goes(n, Publish(2));
    n := CallReaches(n, 0, 0);
    n := Goes(n, Load(0));
    n := Goes(n, CompareAndSwap(0));
  }

  /** Its constructor gets the second, which is not registered yet. */
  lemma FirstGetsSecond() returns (n: Nest)
    ensures At2(n, Cell(Singleton, Creating, None, Some(0)), Cell(Singleton, Created, Some(0), Some(2)),
                [Object(1, 0, 0)], Constructing(0), Idle, Registering(1, 0), [])
    ensures n.got == {(0, 1)} && n.relied == {} && n.caller[0].None? && n.caller[2].None?
  {
    n := FirstBegun();
    hide Reachable;
    assert forall u | 0 <= u < 3 :: n.caller[u].None?;
    n := MoveReaches(n, Inner(0, 1, 1));
    n := Goes(n, Load(1));
  }

  /** The first is finished and registered, and then the second. */
  lemma FirstRegisteredFirst() returns (n: Nest)
    ensures At2(n, Cell(Singleton, Created, Some(1), None), Cell(Singleton, Created, Some(0), None),
                [Object(1, 0, 0), Object(0, 0, 0)], Idle, Idle, Idle, [0, 1])
    ensures n.got == {(0, 1)} && n.relied == {}
  {
    n := FirstGetsSecond();
    hide Reachable, CanMove, StandsStill;
    n := Goes(n, Construct(0));
    n := Goes(n, Publish(0));
    n := Goes(n, Register(0));
    n := Goes(n, Register(2));
  }

  lemma ExitCanMove(n: Nest, step: Step)
    requires Enabled(n.s, step) && (step.BeginExit? || step.RunCallback? || step.EndExit?)
    ensures CanMove(n, Outer(step))
  {
  }

  lemma ExitReaches(n: Nest, step: Step) returns (n': Nest)
    requires Reachable(n) && |n.caller| == |n.s.pcs| && Enabled(n.s, step) && (step.BeginExit? || step.RunCallback?)
    ensures Reachable(n') && n' == n.(s := Apply(n.s, step)) && |n'.caller| == |n'.s.pcs|
  {
    hide Reachable;
    n' := MoveReaches(n, Outer(step));
  }

  /** At exit the second is destroyed first, though the constructor of the first got it
      and the first is still there. */
  lemma UsedObjectTornDownFirst() returns (between: Nest, n: Nest)
    ensures Reachable(between) && Reachable(n) && (0, 1) in between.got && (0, 1) in n.got
    ensures between.s.torndown == [1] && between.s.objects == [Object(1, 0, 1), Object(0, 0, 0)]
    ensures n.s.torndown == [1, 0] && CanMove(n, Outer(EndExit))
  {
    n := FirstRegisteredFirst();
    hide Reachable;
    assert forall t | 0 <= t < |n.s.pcs| :: n.s.pcs[t].Idle?;
    hide CanMove, StandsStill;
    n := ExitReaches(n, BeginExit);
    between := ExitReaches(n, RunCallback);
    n := ExitReaches(between, RunCallback);
    ExitCanMove(n, EndExit);
  }
}
