/**
 * `Subscriber<T>` (src/subscriber.ts) and its identical twin `Subject<T>`
 * (src/subject.ts): an ordered list of listeners. A listener is an identity
 * token of type `L`; what it does when called is the caller's business, so
 * `Notify` returns the calls it makes, in order.
 */
module Subscriber {

  import opened Wrappers
  import opened Seqs

  /** One listener call `cb(newVal, lastVal)`. */
  datatype Call<L, V> = Call(listener: L, newVal: V, lastVal: V)

  /** `observe(ev)`: append, so duplicates are kept. */
  function Observe<L>(events: seq<L>, ev: L): (r: seq<L>)
    ensures |r| == |events| + 1 && r[..|events|] == events && r[|events|] == ev
  {
    events + [ev]
  }

  /**
   * `unObserve(ev?)`: with no callback (`!ev`) drop every listener; otherwise
   * drop every registration equal to `ev` and keep the rest in order.
   */
  function UnObserve<L(==)>(events: seq<L>, ev: Option<L>): (r: seq<L>)
    ensures ev.None? ==> r == []
    ensures ev.Some? ==> ev.value !in r && |r| <= |events|
    ensures ev.Some? ==> forall i :: 0 <= i < |events| && events[i] != ev.value ==> events[i] in r
    ensures ev.Some? ==> forall i :: 0 <= i < |r| ==> r[i] in events
  {
    match ev
    case None => []
    case Some(cb) => Without(events, cb)
  }

  /** The closure `observe(ev)` returns: `() => this.unObserve(ev)`. */
  function Unsubscribe<L(==)>(events: seq<L>, ev: L): seq<L> {
    UnObserve(events, Some(ev))
  }

  /** `notify(newVal, lastVal)`: each listener of the list as it is now, in order. */
  function Notify<L, V>(events: seq<L>, newVal: V, lastVal: V): (r: seq<Call<L, V>>)
    ensures |r| == |events|
    ensures forall i :: 0 <= i < |r| ==> r[i] == Call(events[i], newVal, lastVal)
  {
    seq(|events|, i requires 0 <= i < |events| => Call(events[i], newVal, lastVal))
  }

  /** The calls a given listener receives from one `notify`. */
  function CallsOf<L(==), V>(calls: seq<Call<L, V>>, l: L): nat {
    if calls == [] then 0
    else (if calls[0].listener == l then 1 else 0) + CallsOf(calls[1..], l)
  }

  /**
   * One `notify` calls every listener as many times as it is registered, so a
   * listener registered once is called exactly once.
   */
  lemma {:induction false} NotifyCallsEachRegistration<L, V>(events: seq<L>, newVal: V, lastVal: V, l: L)
    ensures CallsOf(Notify(events, newVal, lastVal), l) == Count(events, l)
    decreases |events|
  {
    if events != [] {
      var calls := Notify(events, newVal, lastVal);
      assert calls[1..] == Notify(events[1..], newVal, lastVal);
      NotifyCallsEachRegistration(events[1..], newVal, lastVal, l);
    }
  }

  /**
   * After the unsubscribe closure runs, the next `notify` makes no call to
   * that listener and the same number of calls to every other one.
   */
  lemma UnsubscribeSilencesOnlyThatListener<L, V>(events: seq<L>, ev: L, newVal: V, lastVal: V, other: L)
    ensures CallsOf(Notify(Unsubscribe(events, ev), newVal, lastVal), ev) == 0
    ensures other != ev ==>
      CallsOf(Notify(Unsubscribe(events, ev), newVal, lastVal), other)
        == CallsOf(Notify(events, newVal, lastVal), other)
  {
    NotifyCallsEachRegistration(Unsubscribe(events, ev), newVal, lastVal, ev);
    NotifyCallsEachRegistration(Unsubscribe(events, ev), newVal, lastVal, other);
    NotifyCallsEachRegistration(events, newVal, lastVal, other);
    WithoutCount(events, ev, ev);
    WithoutCount(events, ev, other);
  }

  /** The unsubscribe closure is idempotent, and undoes every registration of its listener. */
  lemma UnsubscribeIdempotent<L>(events: seq<L>, ev: L)
    ensures Unsubscribe(Unsubscribe(events, ev), ev) == Unsubscribe(events, ev)
    ensures Unsubscribe(Observe(events, ev), ev) == Unsubscribe(events, ev)
  {
    WithoutIdempotent(events, ev);
    WithoutAppend(events, [ev], ev);
  }

  /** The order of the remaining listeners is kept: filtering commutes with appending. */
  lemma UnsubscribeKeepsOrder<L>(events: seq<L>, ev: L, later: L)
    requires later != ev
    ensures Unsubscribe(Observe(events, later), ev) == Observe(Unsubscribe(events, ev), later)
  {
    WithoutAppend(events, [later], ev);
  }
}
