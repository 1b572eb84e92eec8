/** `debounce(func, wait)`: the returned wrapper cancels the pending timer on
    every call and schedules a new one that runs `func` with the arguments of
    that call. The timer itself is the captured variable `timeout`; here it is
    the argument list the pending `later` closure will forward, or nothing. */
module Debounce {
  import opened Timing

  /** The abstract state of one debounced wrapper: the pending invocation (at
      most one, by construction) and the argument lists `func` has run with. */
  datatype Debounced<A> = Debounced(pending: Option<A>, executed: seq<A>)

  function Initial<A>(): Debounced<A> {
    Debounced(None, [])
  }

  /** One event. A call replaces whatever was pending (`clearTimeout` then
      `setTimeout(later, wait)`); the receiver is not kept, because `later`
      calls `func(...args)` without it. When the timer fires, `later` runs
      `func` once with the arguments it captured and nothing is pending any
      more. With no timer pending there is nothing to fire. */
  function Step<R, A>(d: Debounced<A>, e: Event<R, A>): Debounced<A> {
    match e
    case Call(_, args) => d.(pending := Some(args))
    case TimerFires =>
      match d.pending
      case None => d
      case Some(args) => Debounced(None, d.executed + [args])
  }

  /** The state after a sequence of events. */
  function Run<R, A>(d: Debounced<A>, es: seq<Event<R, A>>): Debounced<A> {
    Replay(Step, d, es)
  }

  /** Handling a non-empty sequence is handling its first event, then the rest. */
  lemma RunCons<R, A>(d: Debounced<A>, es: seq<Event<R, A>>)
    requires es != []
    ensures Run(d, es) == Run(Step(d, es[0]), es[1..])
  {
  }

  lemma RunAppend<R, A>(d: Debounced<A>, a: seq<Event<R, A>>, b: seq<Event<R, A>>)
    ensures Run(d, a + b) == Run(Run(d, a), b)
  {
    ReplayAppend(Step, d, a, b);
  }

  /** Calls never run `func`; after a burst of calls exactly one invocation is
      pending, and it carries the arguments of the last call. */
  lemma {:induction false} BurstLeavesLastPending<R, A>(d: Debounced<A>, es: seq<Event<R, A>>)
    requires |es| >= 1 && IsBurst(es)
    ensures Run(d, es) == Debounced(Some(es[|es| - 1].args), d.executed)
    decreases |es|
  {
    assert es[0].Call?;
    RunCons(d, es);
    if |es| > 1 {
      BurstLeavesLastPending(Step(d, es[0]), es[1..]);
    }
  }

  /** Timer expiries with nothing pending change nothing; with an invocation
      pending, the first of them runs it and the rest find nothing to run. */
  lemma {:induction false} QuietRunsPending<R, A>(d: Debounced<A>, es: seq<Event<R, A>>)
    requires |es| >= 1 && IsQuiet(es)
    ensures Run(d, es) == match d.pending
      case None => d
      case Some(args) => Debounced(None, d.executed + [args])
    decreases |es|
  {
    assert es[0].TimerFires?;
    RunCons(d, es);
    if |es| > 1 {
      QuietRunsPending(Step(d, es[0]), es[1..]);
    }
  }

  /** Last call wins: whatever happened before, a call followed by quiet time
      in which the timer fires runs `func` exactly once more, with the
      arguments of that call, and leaves nothing pending. */
  lemma LastCallWins<R, A>(d: Debounced<A>, before: seq<Event<R, A>>, r: R, a: A, quiet: seq<Event<R, A>>)
    requires |quiet| >= 1 && IsQuiet(quiet)
    ensures Run(d, before + [Call(r, a)] + quiet)
         == Debounced(None, Run(d, before).executed + [a])
  {
    RunAppend(d, before + [Call(r, a)], quiet);
    RunAppend(d, before, [Call(r, a)]);
    RunCons(Run(d, before), [Call(r, a)]);
    QuietRunsPending(Run(d, before + [Call(r, a)]), quiet);
  }

  /** A burst of n >= 1 calls with no timer expiry in between, followed by the
      timer firing, runs `func` exactly once, with the last call's arguments. */
  lemma BurstRunsOnce<R, A>(d: Debounced<A>, burst: seq<Event<R, A>>)
    requires |burst| >= 1 && IsBurst(burst)
    ensures Run(d, burst + [TimerFires]) == Debounced(None, d.executed + [burst[|burst| - 1].args])
  {
    RunAppend(d, burst, [TimerFires]);
    BurstLeavesLastPending(d, burst);
  }

  /** Nothing `func` has run with is ever undone, and `func` runs at most once
      per timer expiry. */
  lemma {:induction false} ExecutionsPerFire<R, A>(d: Debounced<A>, es: seq<Event<R, A>>)
    ensures |d.executed| <= |Run(d, es).executed| <= |d.executed| + FireCount(es)
    ensures Run(d, es).executed[..|d.executed|] == d.executed
    decreases |es|
  {
    if es != [] {
      var d' := Step(d, es[0]);
      RunCons(d, es);
      ExecutionsPerFire(d', es[1..]);
      assert d'.executed[..|d.executed|] == d.executed;
    }
  }

  /** Every argument list `func` runs with was passed by a call: either one of
      the events, or the one already pending at the start. */
  lemma {:induction false} ExecutedArgsWereCalled<R, A>(d: Debounced<A>, es: seq<Event<R, A>>)
    ensures forall x :: x in Run(d, es).executed ==>
      x in d.executed || d.pending == Some(x) || exists r :: Call(r, x) in es
    decreases |es|
  {
    if es != [] {
      var d' := Step(d, es[0]);
      RunCons(d, es);
      ExecutedArgsWereCalled(d', es[1..]);
      forall x | x in Run(d, es).executed
        ensures x in d.executed || d.pending == Some(x) || exists r :: Call(r, x) in es
      {
        if es[0].Call? && d'.pending == Some(x) {
          assert Call(es[0].receiver, x) in es;
        } else if x !in d'.executed && d'.pending != Some(x) {
          var r :| Call(r, x) in es[1..];
          assert Call(r, x) in es;
        }
      }
    }
  }

  /** A call made after the timer has fired starts a new, independent delay:
      two calls separated by an expiry run `func` twice, in order. */
  lemma SeparatedCallsRunTwice<R, A>(d: Debounced<A>, r1: R, a1: A, r2: R, a2: A)
    ensures Run(d, [Call(r1, a1), TimerFires, Call(r2, a2), TimerFires])
         == Debounced(None, d.executed + [a1, a2])
  {
    LastCallWins(d, [Call(r1, a1), TimerFires], r2, a2, [TimerFires]);
    assert [Call(r1, a1), TimerFires] + [Call(r2, a2)] + [TimerFires]
        == [Call(r1, a1), TimerFires, Call(r2, a2), TimerFires];
    BurstRunsOnce(d, [Call(r1, a1)]);
    assert [Call(r1, a1)] + [TimerFires] == [Call(r1, a1), TimerFires];
  }

  /** One wrapper produced by `debounce`, with its captured `timeout` as a
      field. `executed` records what `func` received. */
  class Debouncer<R, A> {
    /** The pending timer: the argument list its `later` closure will pass to
        `func`, or `None` when no timer is pending. */
    var timeout: Option<A>
    ghost var executed: seq<A>

    ghost function Model(): Debounced<A>
      reads this
    {
      Debounced(timeout, executed)
    }

    constructor ()
      ensures Model() == Initial()
    {
      timeout := None;
      executed := [];
    }

    /** `executedFunction(...args)`: cancel the pending timer and schedule a
        new one for these arguments. */
    method Call(receiver: R, args: A)
      modifies this
      ensures timeout == Some(args) && executed == old(executed)
      ensures Model() == Step(old(Model()), Event.Call(receiver, args))
    {
      timeout := Some(args);
    }

    /** The pending timer expires: `later` runs `func` with its arguments. */
    method TimerFires()
      modifies this
      ensures old(timeout).Some? ==> executed == old(executed) + [old(timeout).value]
      ensures old(timeout).None? ==> executed == old(executed)
      ensures timeout == None
      ensures Model() == Step(old(Model()), Event<R, A>.TimerFires)
    {
      match timeout
      case None =>
      case Some(args) =>
        timeout := None;
        executed := executed + [args];
    }
  }

  /** `debounce(f, 250)` called at t = 0, 50, 100 and 300 with a, b, c and d:
      every gap is below 250, so the timer first fires after the last call, and
      `f` runs once, with d. */
  method CoalescingScenario<R>(r: R)
  {
    var w := new Debouncer<R, string>();
    w.Call(r, "a");
    w.Call(r, "b");
    w.Call(r, "c");
    w.Call(r, "d");
    w.TimerFires();
    assert w.executed == ["d"] && w.timeout == None;
  }
}
