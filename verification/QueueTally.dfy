/**
 The bounded queue in numbers: how many producers and consumers sleep, how many are
 waking up, and what the thread inside the mutex is doing.

 Items and free places play the same part for consumers and producers, so that every
 claim about sleeping consumers holds of sleeping producers too, in the mirror.
 */
module QueueTally {
  import opened Wrappers

  datatype Role = Nobody | Pusher | Popper | Signaller | Leaver

  datatype Tally = Tally(
    items: int,
    role: Role,        // of the owner of the mutex
    popWaiting: nat,
    pushWaiting: nat,
    popWoken: nat,
    pushWoken: nat)

  function Waiting(t: Tally): nat {
    t.popWaiting + t.pushWaiting
  }

  function Woken(t: Tally): nat {
    t.popWoken + t.pushWoken
  }

  function Busy(t: Tally): nat {
    Waiting(t) + Woken(t) + if t.role.Nobody? then 0 else 1
  }

  /** A tally of at most `n` threads on a queue of size `bound`. */
  predicate Fits(bound: int, n: nat, t: Tally) {
    0 <= t.items <= bound && Busy(t) <= n
  }

  /** One step of one thread, seen in the tally. */
  predicate Moves(bound: int, t: Tally, t': Tally) {
    match t.role
    case Nobody => Enters(t, t') || Rouses(t, t')
    case Pusher => (if t.items == bound then t' == t.(role := Nobody, pushWaiting := t.pushWaiting + 1)
                    else t' == t.(role := Signaller, items := t.items + 1)) || Rouses(t, t')
    case Popper => (if t.items == 0 then t' == t.(role := Nobody, popWaiting := t.popWaiting + 1)
                    else t' == t.(role := Signaller, items := t.items - 1)) || Rouses(t, t')
    case Signaller => Signals(t, t') || Rouses(t, t')
    case Leaver => t' == t.(role := Nobody) || Rouses(t, t')
  }

  /** A call begins, or a woken thread gets the mutex back. */
  predicate Enters(t: Tally, t': Tally) {
    || t' == t.(role := Pusher)
    || t' == t.(role := Popper)
    || (t.popWoken > 0 && t' == t.(role := Popper, popWoken := t.popWoken - 1))
    || (t.pushWoken > 0 && t' == t.(role := Pusher, pushWoken := t.pushWoken - 1))
  }

  /** A spurious wake-up. */
  predicate Rouses(t: Tally, t': Tally) {
    || (t.popWaiting > 0
        && t' == t.(popWaiting := t.popWaiting - 1, popWoken := t.popWoken + 1))
    || (t.pushWaiting > 0
        && t' == t.(pushWaiting := t.pushWaiting - 1, pushWoken := t.pushWoken + 1))
  }

  /** A signal wakes some sleepers, at least one if there is one. */
  predicate Signals(t: Tally, t': Tally) {
    && t'.role.Leaver? && t'.items == t.items
    && t'.popWaiting <= t.popWaiting && t'.pushWaiting <= t.pushWaiting
    && t'.popWaiting + t'.popWoken == t.popWaiting + t.popWoken
    && t'.pushWaiting + t'.pushWoken == t.pushWaiting + t.pushWoken
    && (Waiting(t) > 0 ==> Waiting(t') < Waiting(t))
  }

  // ----- Producers and consumers mirror each other -----

  function Mirror(bound: int, t: Tally): Tally {
    Tally(bound - t.items,
          if t.role.Pusher? then Popper else if t.role.Popper? then Pusher else t.role,
          t.pushWaiting, t.popWaiting, t.pushWoken, t.popWoken)
  }

  lemma MirrorMoves(bound: int, n: nat, t: Tally, t': Tally)
    requires Fits(bound, n, t) && Moves(bound, t, t')
    ensures Fits(bound, n, Mirror(bound, t)) && Moves(bound, Mirror(bound, t), Mirror(bound, t'))
  {
  }

  // ----- When sleepers are looked after -----

  /** The number of threads up to which a queue of positive size is safe. */
  function SafeThreads(bound: int): int {
    if bound == 1 then 2 else bound + 2
  }

  /** While a consumer sleeps though there is an item, somebody is awake to see to it;
      and the sleepers and the items together stay below a limit.  A queue of size
      two or more may exceed the limit by one while all other threads are consumers on
      their way to the items, and by two at one moment: a producer has just found the
      queue full, one consumer sleeps, and the others are all awake. */
  predicate ConsumersSafe(bound: int, t: Tally) {
    var (w, owed) := (Waiting(t), One(t.role.Signaller?));
    var takers := t.popWoken + One(t.role.Popper?);
    t.popWaiting > 0 && t.items > 0 ==>
      && (Woken(t) > 0 || t.role.Pusher? || t.role.Popper? || t.role.Signaller?)
      && (|| w + t.items <= bound + owed
          || (&& bound > 1 && w + t.items == bound + 1 + owed
              && t.pushWaiting == 0 && takers + owed >= t.items
              && (t.pushWoken > 0 ==> t.items == bound && (t.role.Nobody? || t.role.Popper?)))
          || (&& bound > 1 && t.items == bound && (t.role.Nobody? || t.role.Popper?)
              && t.popWaiting == 1 && t.pushWaiting == 1 && t.pushWoken == 0 && takers == bound))
  }

  predicate Safe(bound: int, t: Tally) {
    ConsumersSafe(bound, t) && ConsumersSafe(bound, Mirror(bound, t))
  }

  lemma WakingKeepsConsumersSafe(bound: int, n: nat, t: Tally, t': Tally)
    requires bound > 0 && n <= SafeThreads(bound)
    requires Fits(bound, n, t) && Fits(bound, n, t') && ConsumersSafe(bound, t)
    requires Rouses(t, t') || (t.role.Signaller? && Signals(t, t'))
    ensures ConsumersSafe(bound, t')
  {
  }

  lemma EnteringKeepsConsumersSafe(bound: int, n: nat, t: Tally, t': Tally)
    requires bound > 0 && n <= SafeThreads(bound)
    requires Fits(bound, n, t) && Fits(bound, n, t') && ConsumersSafe(bound, t)
    requires if t.role.Nobody? then Enters(t, t') else t.role.Leaver? && t' == t.(role := Nobody)
    ensures ConsumersSafe(bound, t')
  {
  }

  lemma WorkKeepsConsumersSafe(bound: int, n: nat, t: Tally, t': Tally)
    requires bound > 0 && n <= SafeThreads(bound)
    requires Fits(bound, n, t) && Fits(bound, n, t') && Safe(bound, t)
    requires (t.role.Pusher? || t.role.Popper?) && Moves(bound, t, t') && !Rouses(t, t')
    ensures ConsumersSafe(bound, t')
  {
  }

  lemma MoveKeepsConsumersSafe(bound: int, n: nat, t: Tally, t': Tally)
    requires bound > 0 && n <= SafeThreads(bound)
    requires Fits(bound, n, t) && Fits(bound, n, t') && Safe(bound, t)
    requires Moves(bound, t, t')
    ensures ConsumersSafe(bound, t')
  {
    hide ConsumersSafe, Fits;
    if Rouses(t, t') || t.role.Signaller? {
      WakingKeepsConsumersSafe(bound, n, t, t');
    } else if t.role.Pusher? || t.role.Popper? {
      WorkKeepsConsumersSafe(bound, n, t, t');
    } else {
      EnteringKeepsConsumersSafe(bound, n, t, t');
    }
  }

  lemma MoveKeepsSafe(bound: int, n: nat, t: Tally, t': Tally)
    requires bound > 0 && n <= SafeThreads(bound)
    requires Fits(bound, n, t) && Fits(bound, n, t') && Safe(bound, t) && Moves(bound, t, t')
    ensures Safe(bound, t')
  {
    hide Moves, ConsumersSafe;
    MoveKeepsConsumersSafe(bound, n, t, t');
    MirrorMoves(bound, n, t, t');
    assert Mirror(bound, Mirror(bound, t)) == t;
    MoveKeepsConsumersSafe(bound, n, Mirror(bound, t), Mirror(bound, t'));
  }
}
