/** The queue and waker between a running cycle and the consumer of its step events. Every piece of code between two
    awaits or yields is one atomic step. */
module CycleStreamPump {
  import opened Collections

  /** Where the generator is suspended: before the first `next()`, in the synchronous part that starts the run, at a
      `yield`, waiting for the waker, woken but not yet resumed, waiting for the settled run, or returned. */
  datatype Position = NotStarted | Starting | AtYield | Parked | Woken | AwaitingRun | Returned

  /** `pushed`, `yielded` and `pushedAtDone` record the history; the other parts are the pump's variables. */
  datatype PumpState<S, T, E> = PumpState(
    position: Position,
    pending: seq<S>,
    waiter: bool,
    done: bool,
    result: Option<T>,
    err: Option<E>,
    pushed: seq<S>,
    yielded: seq<S>,
    pushedAtDone: nat)

  // ---------- The atomic steps ----------

  function Initial<S, T, E>(): PumpState<S, T, E> {
    PumpState(NotStarted, [], false, false, None, None, [], [], 0)
  }

  /** `wake()`: clears the waiter before it resumes it. */
  function Wake<S, T, E>(s: PumpState<S, T, E>): PumpState<S, T, E> {
    if s.waiter then s.(waiter := false, position := Woken) else s
  }

  function OnStep<S, T, E>(s: PumpState<S, T, E>, x: S): PumpState<S, T, E> {
    Wake(s.(pending := s.pending + [x], pushed := s.pushed + [x]))
  }

  /** The run's promise settles: `.then` or `.catch` stores the outcome. */
  function Resolve<S, T, E>(s: PumpState<S, T, E>, value: T): PumpState<S, T, E> {
    s.(result := Some(value))
  }

  function Reject<S, T, E>(s: PumpState<S, T, E>, error: E): PumpState<S, T, E> {
    s.(err := Some(error))
  }

  /** `.finally`. */
  function Settle<S, T, E>(s: PumpState<S, T, E>): PumpState<S, T, E> {
    Wake(s.(done := true, pushedAtDone := |s.pushed|))
  }

  function Start<S, T, E>(s: PumpState<S, T, E>): PumpState<S, T, E> {
    s.(position := Starting)
  }

  /** One turn of the loop head, up to the next `yield` or `await`. */
  function Advance<S, T, E>(s: PumpState<S, T, E>): PumpState<S, T, E> {
    if !s.done || |s.pending| > 0 then
      if |s.pending| > 0 then
        s.(position := AtYield, pending := s.pending[1..], yielded := s.yielded + [s.pending[0]])
      else if s.done then s.(position := AwaitingRun)
      else s.(position := Parked, waiter := true)
    else s.(position := AwaitingRun)
  }

  function Finish<S, T, E>(s: PumpState<S, T, E>): PumpState<S, T, E> {
    s.(position := Returned)
  }

  // ---------- Runs ----------

  /** Who acts: the consumer and the microtask queue drive the generator, the cycle pushes steps and settles. */
  datatype Action<S, T, E> = DoStart | DoOnStep(x: S) | DoResolve(value: T) | DoReject(error: E) | DoSettle
                           | DoAdvance | DoFinish

  predicate CanAdvance<S, T, E>(s: PumpState<S, T, E>) {
    s.position in {Starting, AtYield, Woken}
  }

  /** When an action can happen. Steps may be pushed at any time once the run has started, even after it settled. */
  predicate Enabled<S, T, E>(s: PumpState<S, T, E>, a: Action<S, T, E>) {
    match a
    case DoStart => s.position == NotStarted
    case DoOnStep(_) => s.position != NotStarted
    case DoResolve(_) => s.position !in {NotStarted, Starting} && s.result.None? && s.err.None?
    case DoReject(_) => s.position !in {NotStarted, Starting} && s.result.None? && s.err.None?
    case DoSettle => (s.result.Some? || s.err.Some?) && !s.done
    case DoAdvance => CanAdvance(s)
    case DoFinish => s.position == AwaitingRun && s.done
  }

  function Apply<S, T, E>(s: PumpState<S, T, E>, a: Action<S, T, E>): PumpState<S, T, E> {
    match a
    case DoStart => Start(s)
    case DoOnStep(x) => OnStep(s, x)
    case DoResolve(v) => Resolve(s, v)
    case DoReject(e) => Reject(s, e)
    case DoSettle => Settle(s)
    case DoAdvance => Advance(s)
    case DoFinish => Finish(s)
  }

  /** The state after a run; an action that is not enabled does not happen. */
  function Execute<S, T, E>(actions: seq<Action<S, T, E>>): PumpState<S, T, E> {
    if actions == [] then Initial()
    else
      var s := Execute(actions[..|actions| - 1]);
      var a := actions[|actions| - 1];
      if Enabled(s, a) then Apply(s, a) else s
  }

  // ---------- Invariant ----------

  ghost predicate Invariant<S, T, E>(s: PumpState<S, T, E>) {
    && s.pushed == s.yielded + s.pending
    && (s.waiter <==> s.position == Parked)
    && (s.position == Parked ==> s.pending == [] && !s.done)
    && !(s.result.Some? && s.err.Some?)
    && (s.done ==> (s.result.Some? || s.err.Some?) && s.pushedAtDone <= |s.pushed|)
    && (s.position == NotStarted ==> s == Initial())
    && (s.position in {AwaitingRun, Returned} ==> s.done && s.pushedAtDone <= |s.yielded|)
  }

  lemma StepKeepsInvariant<S, T, E>(s: PumpState<S, T, E>, a: Action<S, T, E>)
    requires Invariant(s) && Enabled(s, a)
    ensures Invariant(Apply(s, a))
  {
    if a.DoAdvance? && |s.pending| > 0 {
      assert s.pending == [s.pending[0]] + s.pending[1..];
    }
  }

  lemma {:induction false} ReachableInvariant<S, T, E>(actions: seq<Action<S, T, E>>)
    ensures Invariant(Execute(actions))
  {
    if actions != [] {
      ReachableInvariant(actions[..|actions| - 1]);
      var s := Execute(actions[..|actions| - 1]);
      if Enabled(s, actions[|actions| - 1]) {
        StepKeepsInvariant(s, actions[|actions| - 1]);
      }
    }
  }

  // ---------- No lost wakeup ----------

  /** In every reachable state a parked generator has nothing to deliver and nothing to return, and its waiter is
      installed; a push or the settling of the run then always wakes it. */
  lemma {:induction false} NoLostWakeup<S, T, E>(actions: seq<Action<S, T, E>>)
    ensures var s := Execute(actions);
            && (s.position == Parked ==> s.waiter && s.pending == [] && !s.done)
            && (s.waiter ==> s.position == Parked)
            && (s.position == Parked ==> Settle(s).position == Woken)
            && forall x :: s.position == Parked ==> OnStep(s, x).position == Woken && OnStep(s, x).pending == [x]
  {
    ReachableInvariant(actions);
    assert Execute(actions).pending == [] ==> forall x :: Execute(actions).pending + [x] == [x];
  }

  // ---------- First in, first out ----------

  /** In every reachable state the delivered steps followed by the queued ones are the pushed ones, in order. */
  lemma {:induction false} FifoRefinement<S, T, E>(actions: seq<Action<S, T, E>>)
    ensures var s := Execute(actions); s.pushed == s.yielded + s.pending && s.yielded <= s.pushed
  {
    ReachableInvariant(actions);
  }

  ghost function Pushes<S, T, E>(actions: seq<Action<S, T, E>>): seq<S> {
    if actions == [] then []
    else
      var init, a := actions[..|actions| - 1], actions[|actions| - 1];
      if a.DoOnStep? && Execute(init).position != NotStarted then Pushes(init) + [a.x] else Pushes(init)
  }

  /** `pushed` is the steps the cycle emitted, in the order of the actions. */
  lemma {:induction false} PushedIsEmitted<S, T, E>(actions: seq<Action<S, T, E>>)
    ensures Execute(actions).pushed == Pushes(actions)
  {
    if actions != [] {
      PushedIsEmitted(actions[..|actions| - 1]);
    }
  }

  /** When the generator has returned, the run has settled, exactly one of `result` and `err` is set, every step
      emitted before it settled was delivered once and in order, and nothing else was delivered. */
  lemma {:induction false} ReturnIsComplete<S, T, E>(actions: seq<Action<S, T, E>>)
    requires Execute(actions).position == Returned
    ensures var s := Execute(actions);
            && s.done && (s.result.Some? <==> s.err.None?)
            && s.pushedAtDone <= |s.yielded| && |s.yielded| <= |Pushes(actions)|
            && Pushes(actions)[..s.pushedAtDone] <= s.yielded <= Pushes(actions)
  {
    ReachableInvariant(actions);
    PushedIsEmitted(actions);
  }

  /** The outcome handed back is the one the run settled with: once stored it never changes. */
  lemma OutcomeIsStable<S, T, E>(s: PumpState<S, T, E>, a: Action<S, T, E>)
    requires Invariant(s) && Enabled(s, a)
    ensures s.result.Some? ==> Apply(s, a).result == s.result && Apply(s, a).err == s.err
    ensures s.err.Some? ==> Apply(s, a).err == s.err && Apply(s, a).result == s.result
    ensures s.done ==> Apply(s, a).done && Apply(s, a).pushedAtDone == s.pushedAtDone
  {
  }

  // ---------- Progress ----------

  /** The generator's own next step. */
  function Drive<S, T, E>(s: PumpState<S, T, E>): PumpState<S, T, E> {
    if CanAdvance(s) then Advance(s)
    else if s.position == AwaitingRun && s.done then Finish(s)
    else s
  }

  function Remaining<S, T, E>(s: PumpState<S, T, E>): nat {
    if s.position == Returned then 0
    else if s.position == AwaitingRun then 1
    else |s.pending| + 2
  }

  function DriveTimes<S, T, E>(s: PumpState<S, T, E>, n: nat): PumpState<S, T, E>
    decreases n
  {
    if n == 0 then s else DriveTimes(Drive(s), n - 1)
  }

  /** Once the run has settled the generator is never stuck: driving it delivers the whole queue and returns after
      exactly `Remaining` steps. */
  lemma {:induction false} SettledRunDrains<S, T, E>(s: PumpState<S, T, E>)
    requires Invariant(s) && s.done
    ensures var t := DriveTimes(s, Remaining(s));
            && t.position == Returned
            && t.pushed == s.pushed && t.result == s.result && t.err == s.err
            && (s.position !in {AwaitingRun, Returned} ==> t.yielded == s.pushed && t.pending == [])
    decreases Remaining(s)
  {
    if s.position == AwaitingRun {
      assert DriveTimes(s, 1) == DriveTimes(Drive(s), 0);
    } else if s.position != Returned {
      var next := Drive(s);
      StepKeepsInvariant(s, DoAdvance);
      SettledRunDrains(next);
      if s.pending == [] {
        assert s.yielded + [] == s.yielded;
        assert DriveTimes(next, 1) == Drive(next);
      }
    }
  }

  /** While steps are queued the generator can move, and the next step it delivers is the oldest one. */
  lemma {:induction false} QueuedStepIsNext<S, T, E>(actions: seq<Action<S, T, E>>)
    requires Execute(actions).pending != []
    requires Execute(actions).position !in {NotStarted, AwaitingRun, Returned}
    ensures var s := Execute(actions);
            CanAdvance(s) && |s.yielded| < |s.pushed| && Advance(s).yielded == s.yielded + [s.pushed[|s.yielded|]]
  {
    ReachableInvariant(actions);
  }

  // ---------- The pump ----------

  /** The pump's variables; `position` stands for the suspended generator. */
  class Pump<S, T, E> {
    var position: Position
    var pending: seq<S>
    var waiter: bool
    var done: bool
    var result: Option<T>
    var err: Option<E>
    ghost var pushed: seq<S>
    ghost var yielded: seq<S>
    ghost var pushedAtDone: nat

    ghost function State(): PumpState<S, T, E>
      reads this
    {
      PumpState(position, pending, waiter, done, result, err, pushed, yielded, pushedAtDone)
    }

    constructor ()
      ensures State() == Initial()
    {
      position, pending, waiter, done, result, err := NotStarted, [], false, false, None, None;
      pushed, yielded, pushedAtDone := [], [], 0;
    }

    method WakeWaiter()
      modifies this
      ensures State() == Wake(old(State()))
    {
      var w := waiter;
      waiter := false;
      if w {
        position := Woken;
      }
    }

    method StepEmitted(x: S)
      modifies this
      ensures State() == OnStep(old(State()), x)
    {
      pending := pending + [x];
      pushed := pushed + [x];
      WakeWaiter();
    }

    method RunSettled()
      modifies this
      ensures State() == Settle(old(State()))
    {
      done := true;
      pushedAtDone := |pushed|;
      WakeWaiter();
    }

    method RunResolved(value: T)
      modifies this
      ensures State() == Resolve(old(State()), value)
    {
      result := Some(value);
    }

    method RunRejected(error: E)
      modifies this
      ensures State() == Reject(old(State()), error)
    {
      err := Some(error);
    }

    /** From the loop head to the next suspension; returns the step delivered, if any. */
    method Resume() returns (step: Option<S>)
      requires CanAdvance(State())
      modifies this
      ensures State() == Advance(old(State()))
      ensures step == if old(pending) != [] then Some(old(pending)[0]) else None
    {
      step := None;
      if !done || |pending| > 0 {
        if |pending| > 0 {
          step := Some(pending[0]);
          yielded := yielded + [pending[0]];
          pending := pending[1..];
          position := AtYield;
          return;
        }
        if !done {
          waiter := true;
          position := Parked;
          return;
        }
      }
      position := AwaitingRun;
    }
  }
}
