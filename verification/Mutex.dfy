/**
 The conditional mutex: `LockWhen` blocks on one condition variable until a
 condition on the protected data holds, and `Unlock` signals that variable
 whenever some thread has ever entered the wait loop.

 The mutex is a state machine over its atomic steps.  `T` names threads; `cond`
 is the truth of the one condition all waiters share, evaluated on the protected
 data.  A signal wakes at least one waiter, and a waiter may wake for no reason.
 */
module CondMutex {
  import opened Wrappers

  datatype Mutex<T> = Mutex(
    owner: Option<T>,      // who holds the pthread mutex
    waiting: set<T>,       // asleep in pthread_cond_wait
    woken: set<T>,         // out of the sleep, not yet holding the mutex again
    signalAtUnlock: bool,
    signalled: bool,       // the owner has passed the signal half of Unlock
    cond: bool)

  datatype Step<T> =
    | Lock(t: T)
    | EnterWaitLoop(t: T)
    | Block(t: T)
    | SpuriousWake(t: T)
    | Resume(t: T)
    | Work(t: T, c: bool)
    | Signal(t: T, woke: set<T>)
    | Release(t: T)

  predicate Owns<T(==)>(m: Mutex<T>, t: T) {
    m.owner == Some(t) && !m.signalled
  }

  predicate Enabled<T(==)>(m: Mutex<T>, step: Step<T>) {
    match step
    case Lock(t) => m.owner.None? && t !in m.waiting + m.woken
    case EnterWaitLoop(t) => Owns(m, t)
    // pthread_cond_wait runs inside the wait loop, when the condition was false
    case Block(t) => Owns(m, t) && m.signalAtUnlock && !m.cond
    case SpuriousWake(t) => t in m.waiting
    case Resume(t) => m.owner.None? && t in m.woken
    case Work(t, _) => Owns(m, t)
    case Signal(t, woke) => Owns(m, t) && SignalWakes(m.signalAtUnlock, m.waiting, woke)
    case Release(t) => m.owner == Some(t) && m.signalled
  }

  /** What one optional pthread_cond_signal may do to the sleeping threads. */
  predicate SignalWakes<T(==)>(send: bool, waiting: set<T>, woke: set<T>) {
    woke <= waiting && (woke == {} <==> !send || waiting == {})
  }

  function Apply<T(==)>(m: Mutex<T>, step: Step<T>): Mutex<T> {
    match step
    case Lock(t) => m.(owner := Some(t))
    case EnterWaitLoop(t) => m.(signalAtUnlock := true)
    case Block(t) => m.(owner := None, waiting := m.waiting + {t})
    case SpuriousWake(t) => m.(waiting := m.waiting - {t}, woken := m.woken + {t})
    case Resume(t) => m.(owner := Some(t), woken := m.woken - {t})
    case Work(t, c) => m.(cond := c)
    case Signal(t, woke) =>
      m.(waiting := m.waiting - woke, woken := m.woken + woke, signalled := true)
    case Release(t) => m.(owner := None, signalled := false)
  }

  ghost predicate Next<T(!new)>(m: Mutex<T>, m': Mutex<T>) {
    exists step: Step<T> :: Enabled(m, step) && m' == Apply(m, step)
  }

  ghost predicate Init<T(!new)>(m: Mutex<T>) {
    m.owner.None? && m.waiting == {} && m.woken == {} && !m.signalAtUnlock && !m.signalled
  }

  ghost predicate IsRun<T(!new)>(run: seq<Mutex<T>>) {
    && |run| > 0
    && Init(run[0])
    && forall i | 0 <= i < |run| - 1 :: Next(run[i], run[i + 1])
  }

  /** A sleeper is never left alone with a true condition and a free mutex. */
  predicate NoLostWakeup<T(==)>(m: Mutex<T>) {
    m.owner.None? && m.cond && m.waiting != {} ==> m.woken != {}
  }

  ghost predicate Inv<T(!new)>(m: Mutex<T>) {
    && m.waiting !! m.woken
    && (m.owner.Some? ==> m.owner.value !in m.waiting + m.woken)
    && (m.owner.None? ==> !m.signalled)
    && (m.waiting != {} ==> m.signalAtUnlock)
    && (m.signalled && m.waiting != {} ==> m.woken != {})
    && NoLostWakeup(m)
  }

  lemma StepKeepsInv<T(!new)>(m: Mutex<T>, step: Step<T>)
    requires Inv(m) && Enabled(m, step)
    ensures Inv(Apply(m, step))
  {
    match step
    case SpuriousWake(t) => assert t in Apply(m, step).woken;
    case Signal(t, woke) =>
      if woke != {} {
        var u :| u in woke;
        assert u in Apply(m, step).woken;
      }
    case _ =>
  }

  /** Every state of every run keeps the invariant, hence loses no wake-up. */
  lemma {:induction false} RunKeepsInv<T(!new)>(run: seq<Mutex<T>>, i: nat)
    requires IsRun(run) && i < |run|
    ensures Inv(run[i])
  {
    if i > 0 {
      RunKeepsInv(run, i - 1);
      assert Next(run[i - 1], run[i - 1 + 1]);
      var step: Step<T> :| Enabled(run[i - 1], step) && run[i] == Apply(run[i - 1], step);
      StepKeepsInv(run[i - 1], step);
    }
  }

  lemma RunLosesNoWakeup<T(!new)>(run: seq<Mutex<T>>)
    requires IsRun(run)
    ensures forall i | 0 <= i < |run| :: NoLostWakeup(run[i])
  {
    forall i | 0 <= i < |run| ensures NoLostWakeup(run[i]) {
      RunKeepsInv(run, i);
    }
  }
}
