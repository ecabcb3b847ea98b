/**
 * `ChannelSubscriber` (src/subscriber.ts) and `ChannelSubject`
 * (src/subject.ts): named event channels over a `ChannelData` of callbacks.
 * The two classes are the same code over the two `ChannelData.remove`
 * variants, so each operation takes the `Copy` it runs against.
 */
module ChannelEvents {

  import opened JsValue
  import opened ChannelData
  import opened Seqs

  /** A callback: an object reference, compared by identity. */
  type Handler = v: Value | v.Ref? witness Ref(0)

  /** Every stored value is a callback, as `observe` is the only writer. */
  ghost predicate OnlyHandlers(d: Store) {
    forall k, i :: k in d && 0 <= i < |d[k]| ==> d[k][i].Ref?
  }

  /** The four `unObserve` overloads. */
  datatype UnObserveArgs = NoArgs | One(x: Value) | Two(name: ChannelName, ev: Handler)

  /** `observe(name, ev)`: push `ev` on channel `name`. */
  function Observe(d: Store, name: ChannelName, ev: Handler): (r: Store)
    ensures Stack(r, KeyOf(name)) == Stack(d, KeyOf(name)) + [ev]
    ensures SameElsewhere(d, r, KeyOf(name))
    ensures OnlyHandlers(d) ==> OnlyHandlers(r)
  {
    Push(d, name, ev)
  }

  /**
   * The closure `observe(name, ev)` returns: `remove(name, ev)`, which drops
   * every registration of `ev` on that channel and keeps its other callbacks
   * in order.
   */
  function Unsubscribe(copy: Copy, d: Store, name: ChannelName, ev: Handler): (r: Store)
    ensures r.Keys == d.Keys
    ensures Stack(r, KeyOf(name)) == Without(Stack(d, KeyOf(name)), ev)
    ensures ev !in Stack(r, KeyOf(name))
    ensures SameElsewhere(d, r, KeyOf(name))
  {
    Remove(copy, d, Pair(name, ev))
  }

  /**
   * `unObserve(...)`: a falsy (or missing) first argument clears every
   * channel; any other call is `remove` with the same arguments.
   */
  function UnObserve(copy: Copy, d: Store, args: UnObserveArgs): (r: Store)
    ensures args.NoArgs? ==> r == map[]
    ensures args.One? && !Truthy(args.x) ==> r == map[]
    ensures args.Two? && !Truthy(args.name) ==> r == map[]
    ensures args.One? && Truthy(args.x) ==> r == Remove(copy, d, Single(args.x))
    ensures args.Two? && Truthy(args.name) ==> r == Remove(copy, d, Pair(args.name, args.ev))
    ensures args.Two? && Truthy(args.name) ==>
      r.Keys == d.Keys && Stack(r, KeyOf(args.name)) == Without(Stack(d, KeyOf(args.name)), args.ev)
      && SameElsewhere(d, r, KeyOf(args.name))
    ensures args.One? && args.x.Ref? ==>
      r.Keys == d.Keys && forall k :: k in r ==> r[k] == Without(d[k], args.x)
  {
    match args
    case NoArgs => Clear()
    case One(x) => if !Truthy(x) then Clear() else Remove(copy, d, Single(x))
    case Two(name, ev) => if !Truthy(name) then Clear() else Remove(copy, d, Pair(name, ev))
  }

  /** `notify(name, ...payloads)`: the callbacks of `name` only, in insertion order. */
  function Notify(d: Store, name: ChannelName, payloads: seq<Value>): (r: seq<(Value, seq<Value>)>)
    ensures |r| == |Stack(d, KeyOf(name))|
    ensures forall i :: 0 <= i < |r| ==> r[i] == (Stack(d, KeyOf(name))[i], payloads)
  {
    var calls := ForEachInChannel(d, name);
    seq(|calls|, i requires 0 <= i < |calls| => (calls[i].0, payloads))
  }

  /**
   * `unObserve(name)` with a non-empty string deletes that channel in both
   * copies: src/subscriber.ts finds the channel (or, if it is absent, purges
   * the string, which no callback equals), src/subject.ts deletes it outright.
   */
  lemma UnObserveNameDeletesChannel(copy: Copy, d: Store, s: string)
    requires OnlyHandlers(d)
    requires s != ""
    ensures var r := UnObserve(copy, d, One(Str(s)));
      s !in r && SameElsewhere(d, r, s)
  {
    var r := UnObserve(copy, d, One(Str(s)));
    if copy == SubscriberCopy && s !in d {
      forall k | k in d
        ensures r[k] == d[k]
      {
        assert Str(s) !in d[k];
      }
    }
  }

  /**
   * Observing on one channel changes no other channel's notification, and the
   * observed callback is the last one its own channel calls.
   */
  lemma ObserveIsolation(d: Store, name: ChannelName, ev: Handler, other: ChannelName, payloads: seq<Value>)
    ensures KeyOf(other) != KeyOf(name) ==>
      Notify(Observe(d, name, ev), other, payloads) == Notify(d, other, payloads)
    ensures var calls := Notify(Observe(d, name, ev), name, payloads);
      |calls| > 0 && calls[|calls| - 1] == (ev, payloads)
  {
  }

  /**
   * The unsubscribe closure removes its callback from its own channel only:
   * other channels' notifications are unchanged, the callback is no longer
   * called on its channel, and every other callback of that channel is
   * called as many times as before.
   */
  lemma UnsubscribeIsolation(copy: Copy, d: Store, name: ChannelName, ev: Handler, other: ChannelName, payloads: seq<Value>)
    ensures KeyOf(other) != KeyOf(name) ==>
      Notify(Unsubscribe(copy, d, name, ev), other, payloads) == Notify(d, other, payloads)
    ensures forall c :: c in Notify(Unsubscribe(copy, d, name, ev), name, payloads) ==> c.0 != ev
    ensures forall h ::
              Count(Notify(Unsubscribe(copy, d, name, ev), name, payloads), (h, payloads))
              == (if h == ev then 0 else Count(Notify(d, name, payloads), (h, payloads)))
  {
    var key := KeyOf(name);
    var r := Unsubscribe(copy, d, name, ev);
    forall h
      ensures Count(Notify(r, name, payloads), (h, payloads))
        == (if h == ev then 0 else Count(Notify(d, name, payloads), (h, payloads)))
    {
      CallCount(Notify(r, name, payloads), Stack(r, key), payloads, h);
      CallCount(Notify(d, name, payloads), Stack(d, key), payloads, h);
      WithoutCount(Stack(d, key), ev, h);
    }
  }

  /** A notification calls each callback as often as it is registered on the channel. */
  lemma {:induction false} CallCount(calls: seq<(Value, seq<Value>)>, stack: seq<Value>, payloads: seq<Value>, h: Value)
    requires |calls| == |stack|
    requires forall i :: 0 <= i < |calls| ==> calls[i] == (stack[i], payloads)
    ensures Count(calls, (h, payloads)) == Count(stack, h)
    decreases |stack|
  {
    if stack != [] {
      CallCount(calls[1..], stack[1..], payloads, h);
    }
  }
}
