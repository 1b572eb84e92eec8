/** `throttle(func, limit)`: the returned wrapper runs `func` at once, with its
    own receiver and arguments, when it is not cooling down, and then cools
    down until the timer it set fires; calls made while it cools down are
    dropped. The cooldown is the captured variable `inThrottle`. */
module Throttle {
  import opened Timing

  /** The abstract state of one throttled wrapper: whether it is cooling down,
      and the receiver and argument list of every run of `func` so far. */
  datatype Throttled<R, A> = Throttled(inThrottle: bool, executed: seq<(R, A)>)

  /** `inThrottle` starts out undefined, which the wrapper's test reads as false. */
  function Initial<R, A>(): Throttled<R, A> {
    Throttled(false, [])
  }

  /** One event. A call when not cooling down runs `func` with the call's
      receiver and arguments and starts the cooldown; a call during the
      cooldown does nothing. The timer sets `inThrottle` back to false. */
  function Step<R, A>(t: Throttled<R, A>, e: Event<R, A>): Throttled<R, A> {
    match e
    case Call(receiver, args) =>
      if !t.inThrottle then Throttled(true, t.executed + [(receiver, args)]) else t
    case TimerFires => t.(inThrottle := false)
  }

  /** The state after a sequence of events. */
  function Run<R, A>(t: Throttled<R, A>, es: seq<Event<R, A>>): Throttled<R, A> {
    Replay(Step, t, es)
  }

  /** Handling a non-empty sequence is handling its first event, then the rest. */
  lemma RunCons<R, A>(t: Throttled<R, A>, es: seq<Event<R, A>>)
    requires es != []
    ensures Run(t, es) == Run(Step(t, es[0]), es[1..])
  {
  }

  lemma RunAppend<R, A>(t: Throttled<R, A>, a: seq<Event<R, A>>, b: seq<Event<R, A>>)
    ensures Run(t, a + b) == Run(Run(t, a), b)
  {
    ReplayAppend(Step, t, a, b);
  }

  /** Calls made during the cooldown are dropped: they neither run `func` nor
      are kept to run later. */
  lemma {:induction false} CooldownDropsBurst<R, A>(t: Throttled<R, A>, es: seq<Event<R, A>>)
    requires t.inThrottle && IsBurst(es)
    ensures Run(t, es) == t
    decreases |es|
  {
    if es != [] {
      assert es[0].Call?;
      RunCons(t, es);
      CooldownDropsBurst(Step(t, es[0]), es[1..]);
    }
  }

  /** Leading edge: in a burst that starts when the wrapper is not cooling down,
      the first call runs `func` at once with its own receiver and arguments,
      and every later call of the burst is dropped. */
  lemma {:induction false} BurstRunsFirst<R, A>(t: Throttled<R, A>, es: seq<Event<R, A>>)
    requires !t.inThrottle && |es| >= 1 && IsBurst(es)
    ensures Run(t, es) == Throttled(true, t.executed + [(es[0].receiver, es[0].args)])
  {
    assert es[0].Call?;
    assert es == [es[0]] + es[1..];
    RunAppend(t, [es[0]], es[1..]);
    CooldownDropsBurst(Step(t, es[0]), es[1..]);
  }

  /** There is no trailing edge: the end of the cooldown runs nothing, so
      calls dropped during it are lost; the next call runs again. */
  lemma Resumes<R, A>(t: Throttled<R, A>, r: R, a: A)
    ensures Step(t, TimerFires).executed == t.executed
    ensures Run(t, [TimerFires, Call(r, a)]) == Throttled(true, t.executed + [(r, a)])
  {
    var es: seq<Event<R, A>> := [TimerFires, Call(r, a)];
    var ready := Step(t, TimerFires);
    assert es[1..] == [Call(r, a)] && es[1..][1..] == [];
    assert Run(t, es) == Run(ready, [Call(r, a)]) == Run(Step(ready, Call(r, a)), []);
  }

  /** Rate bound: `func` runs at most once per expiry of the cooldown timer,
      plus once if the wrapper starts out ready. From the initial state it runs
      at most 1 + (number of timer expiries) times. */
  lemma {:induction false} AtMostOncePerCooldown<R, A>(t: Throttled<R, A>, es: seq<Event<R, A>>)
    ensures |Run(t, es).executed| + (if Run(t, es).inThrottle then 0 else 1)
         <= |t.executed| + (if t.inThrottle then 0 else 1) + FireCount(es)
    decreases |es|
  {
    if es != [] {
      RunCons(t, es);
      AtMostOncePerCooldown(Step(t, es[0]), es[1..]);
    }
  }

  /** Every run of `func` is one of the calls, with that call's receiver and
      arguments; earlier runs are never undone. */
  lemma {:induction false} ExecutedWereCalled<R, A>(t: Throttled<R, A>, es: seq<Event<R, A>>)
    ensures |t.executed| <= |Run(t, es).executed|
    ensures Run(t, es).executed[..|t.executed|] == t.executed
    ensures forall k :: |t.executed| <= k < |Run(t, es).executed| ==>
      Call(Run(t, es).executed[k].0, Run(t, es).executed[k].1) in es
    decreases |es|
  {
    if es != [] {
      var t' := Step(t, es[0]);
      RunCons(t, es);
      ExecutedWereCalled(t', es[1..]);
      var final := Run(t, es).executed;
      assert final[..|t'.executed|] == t'.executed;
      forall k | |t.executed| <= k < |final| ensures Call(final[k].0, final[k].1) in es {
        if k < |t'.executed| {
          assert final[k] == t'.executed[k];
          assert es[0] == Call(final[k].0, final[k].1);
        } else {
          assert Call(final[k].0, final[k].1) in es[1..];
        }
      }
    }
  }

  /** One wrapper produced by `throttle`, with its captured `inThrottle` as a
      field. `executed` records the receiver and arguments `func` was applied to. */
  class Throttler<R, A> {
    var inThrottle: bool
    ghost var executed: seq<(R, A)>

    ghost function Model(): Throttled<R, A>
      reads this
    {
      Throttled(inThrottle, executed)
    }

    constructor ()
      ensures Model() == Initial()
    {
      inThrottle := false;
      executed := [];
    }

    /** A call through the wrapper: `func.apply(context, args)` and the start
        of the cooldown when it is not cooling down, nothing otherwise. */
    method Call(receiver: R, args: A)
      modifies this
      ensures !old(inThrottle) ==> executed == old(executed) + [(receiver, args)]
      ensures old(inThrottle) ==> executed == old(executed)
      ensures inThrottle
      ensures Model() == Step(old(Model()), Event.Call(receiver, args))
    {
      if !inThrottle {
        executed := executed + [(receiver, args)];
        inThrottle := true;
      }
    }

    /** The cooldown timer expires and clears the flag. */
    method TimerFires()
      modifies this
      ensures !inThrottle && executed == old(executed)
      ensures Model() == Step(old(Model()), Event<R, A>.TimerFires)
    {
      inThrottle := false;
    }
  }

  /** `throttle(f, 16)` called at t = 0, 5, 10 and 20: the cooldown started at
      0 ends at 16, so `f` runs for the calls at 0 and 20 only. */
  method FrameRateScenario<R>(r: R)
  {
    var w := new Throttler<R, int>();
    w.Call(r, 0);
    w.Call(r, 5);
    w.Call(r, 10);
    w.TimerFires();
    w.Call(r, 20);
    assert w.executed == [(r, 0), (r, 20)];
  }
}
