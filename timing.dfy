/** Vocabulary shared by the two rate-limiting wrappers, `debounce` and
    `throttle`. Real time is not modelled: a wrapper sees a sequence of events,
    each either a call made through it or the expiry of the timer it set. */
module Timing {

  datatype Option<T> = None | Some(value: T)

  /** One event seen by a wrapper: a call with its receiver (`this`) and its
      argument list, or the expiry of the wrapper's pending timer. */
  datatype Event<R, A> = Call(receiver: R, args: A) | TimerFires

  /** A burst: calls only, with no timer expiring in between. */
  predicate IsBurst<R, A>(es: seq<Event<R, A>>) {
    forall k :: 0 <= k < |es| ==> es[k].Call?
  }

  /** Quiet time after the last call: only timer expiries. */
  predicate IsQuiet<R, A>(es: seq<Event<R, A>>) {
    forall k :: 0 <= k < |es| ==> es[k].TimerFires?
  }

  /** Number of timer expiries among `es`. */
  function FireCount<R, A>(es: seq<Event<R, A>>): (n: nat)
    ensures n <= |es|
  {
    if es == [] then 0 else (if es[0].TimerFires? then 1 else 0) + FireCount(es[1..])
  }

  /** The state a wrapper reaches from `s` by handling `es` in order with `step`. */
  function Replay<S, R, A>(step: (S, Event<R, A>) -> S, s: S, es: seq<Event<R, A>>): S
    decreases |es|
  {
    if es == [] then s else Replay(step, step(s, es[0]), es[1..])
  }

  /** Handling two event sequences one after the other is handling their
      concatenation. */
  lemma {:induction false} ReplayAppend<S, R, A>(step: (S, Event<R, A>) -> S, s: S, a: seq<Event<R, A>>, b: seq<Event<R, A>>)
    ensures Replay(step, s, a + b) == Replay(step, Replay(step, s, a), b)
    decreases |a|
  {
    if a != [] {
      assert (a + b)[0] == a[0] && (a + b)[1..] == a[1..] + b;
      ReplayAppend(step, step(s, a[0]), a[1..], b);
    } else {
      assert a + b == b;
    }
  }
}
