/**
 * `ChannelData`: a plain object mapping each channel key to a stack of values.
 * The two copies of the class differ only in how a one-argument `remove`
 * chooses between "delete this channel" and "purge this value"; both are
 * modelled, selected by `Copy`.
 */
module ChannelData {

  import opened JsValue
  import opened Seqs

  /** Channel key (after property-key coercion) to the stack, bottom first. */
  type Store = map<string, seq<Value>>

  /** Which source file's `ChannelData.remove` is meant. */
  datatype Copy = SubscriberCopy | SubjectCopy

  /**
   * The arguments of `remove`: one value (a channel name or a value to purge),
   * or a channel and a value. A `Pair` whose value is `undefined` is treated
   * as a one-argument call, as `isUndef(data)` decides.
   */
  datatype RemoveArgs = Single(x: Value) | Pair(channel: ChannelName, data: Value)

  /** The stack of `key`, empty when the key is absent. */
  function Stack(d: Store, key: string): seq<Value> {
    if key in d then d[key] else []
  }

  /** Every channel other than `key` is present in both stores with the same stack. */
  ghost predicate SameElsewhere(d: Store, r: Store, key: string) {
    forall k :: k != key ==> (k in d <==> k in r) && (k in d ==> d[k] == r[k])
  }

  /** A present channel has a non-empty stack. */
  ghost predicate NoEmptyChannels(d: Store) {
    forall k :: k in d ==> |d[k]| > 0
  }

  /** `push`: create the channel on first use, then append. */
  function Push(d: Store, channel: ChannelName, v: Value): (r: Store)
    ensures KeyOf(channel) in r && r[KeyOf(channel)] == Stack(d, KeyOf(channel)) + [v]
    ensures SameElsewhere(d, r, KeyOf(channel))
  {
    d[KeyOf(channel) := Stack(d, KeyOf(channel)) + [v]]
  }

  /**
   * `pop`: the last pushed value of the channel, or `undefined` for an absent
   * channel. The key is deleted once its stack is empty after the pop (so an
   * already-empty channel left behind by `remove` yields `undefined` and goes).
   */
  function Pop(d: Store, channel: ChannelName): (r: (Store, Value))
    ensures var key := KeyOf(channel);
      && r.1 == (if key in d && |d[key]| > 0 then d[key][|d[key]| - 1] else Undefined)
      && (key in r.0 <==> key in d && |d[key]| > 1)
      && (key in r.0 ==> r.0[key] == d[key][..|d[key]| - 1])
      && SameElsewhere(d, r.0, key)
  {
    var key := KeyOf(channel);
    if key !in d then (d, Undefined)
    else
      var stack := d[key];
      if |stack| == 0 then (d - {key}, Undefined)
      else if |stack| == 1 then (d - {key}, stack[0])
      else (d[key := stack[..|stack| - 1]], stack[|stack| - 1])
  }

  /** The inner `removeVal`: filter one channel, if it is present. */
  function RemoveVal(d: Store, key: string, v: Value): (r: Store)
    ensures key in r <==> key in d
    ensures key in d ==> r[key] == Without(d[key], v)
    ensures SameElsewhere(d, r, key)
  {
    if key in d then d[key := Without(d[key], v)] else d
  }

  /** Filter every channel. */
  function Purge(d: Store, v: Value): (r: Store)
    ensures r.Keys == d.Keys
    ensures forall k :: k in r ==> r[k] == Without(d[k], v)
  {
    map k | k in d :: Without(d[k], v)
  }

  /** `remove` of src/subscriber.ts: an existing channel named by the argument wins. */
  function RemoveInSubscriber(d: Store, args: RemoveArgs): (r: Store)
    ensures args.Single? && IsChannelName(args.x) && KeyOf(args.x) in d ==>
      r.Keys == d.Keys - {KeyOf(args.x)} && SameElsewhere(d, r, KeyOf(args.x))
    ensures args.Single? && !(IsChannelName(args.x) && KeyOf(args.x) in d) ==>
      r.Keys == d.Keys && forall k :: k in r ==> r[k] == Without(d[k], args.x)
    ensures args.Pair? && args.data != Undefined ==>
      r.Keys == d.Keys && Stack(r, KeyOf(args.channel)) == Without(Stack(d, KeyOf(args.channel)), args.data)
      && SameElsewhere(d, r, KeyOf(args.channel))
    decreases args.Pair?
  {
    match args
    case Pair(c, v) =>
      if v == Undefined then RemoveInSubscriber(d, Single(c)) else RemoveVal(d, KeyOf(c), v)
    case Single(x) =>
      if IsChannelName(x) && KeyOf(x) in d then d - {KeyOf(x)} else Purge(d, x)
  }

  /** `remove` of src/subject.ts: any string argument is a channel; `undefined` does nothing. */
  function RemoveInSubject(d: Store, args: RemoveArgs): (r: Store)
    ensures args.Single? && args.x.Str? ==>
      args.x.s !in r && SameElsewhere(d, r, args.x.s)
    ensures args.Single? && !args.x.Str? && args.x != Undefined ==>
      r.Keys == d.Keys && forall k :: k in r ==> r[k] == Without(d[k], args.x)
    ensures args == Single(Undefined) ==> r == d
    ensures args.Pair? && args.data != Undefined ==>
      r.Keys == d.Keys && Stack(r, KeyOf(args.channel)) == Without(Stack(d, KeyOf(args.channel)), args.data)
      && SameElsewhere(d, r, KeyOf(args.channel))
    decreases args.Pair?
  {
    match args
    case Pair(c, v) =>
      if v == Undefined then RemoveInSubject(d, Single(c)) else RemoveVal(d, KeyOf(c), v)
    case Single(x) =>
      if x.Str? then d - {x.s}
      else if x != Undefined then Purge(d, x)
      else d
  }

  function Remove(copy: Copy, d: Store, args: RemoveArgs): Store {
    match copy
    case SubscriberCopy => RemoveInSubscriber(d, args)
    case SubjectCopy => RemoveInSubject(d, args)
  }

  /** `clear`. */
  function Clear(): (r: Store)
    ensures forall k :: k !in r
  {
    map[]
  }

  /** `forEachInChannel`: the (value, index) pairs the callback sees, in order. */
  function ForEachInChannel(d: Store, channel: ChannelName): (r: seq<(Value, nat)>)
    ensures |r| == |Stack(d, KeyOf(channel))|
    ensures forall i :: 0 <= i < |r| ==> r[i] == (Stack(d, KeyOf(channel))[i], i)
  {
    var s := Stack(d, KeyOf(channel));
    seq(|s|, i requires 0 <= i < |s| => (s[i], i))
  }

  /** The (value, channel, index) triples of one stack, bottom first. */
  function Triples(key: string, s: seq<Value>): (r: seq<(Value, string, nat)>)
    ensures |r| == |s|
    ensures forall i :: 0 <= i < |r| ==> r[i] == (s[i], key, i)
  {
    seq(|s|, i requires 0 <= i < |s| => (s[i], key, i))
  }

  /** The position of `key` in `order`, or `|order|` when it is absent. */
  function Rank(order: seq<string>, key: string): (n: nat)
    ensures n <= |order|
    ensures n < |order| ==> order[n] == key
    ensures key in order ==> n < |order|
  {
    if order == [] || order[0] == key then 0 else 1 + Rank(order[1..], key)
  }

  /**
   * `forEach`: every channel in `Object.keys` order, each stack bottom to
   * top. `order` is that enumeration of the keys (JavaScript's property
   * order itself is not modelled): every key of the store, once.
   */
  function ForEach(d: Store, order: seq<string>): (r: seq<(Value, string, nat)>)
    requires forall k :: k in order <==> k in d
    requires Distinct(order)
    ensures forall t :: t in r ==> t.1 in d && t.2 < |d[t.1]| && d[t.1][t.2] == t.0
    ensures forall k, i :: k in d && 0 <= i < |d[k]| ==> (d[k][i], k, i) in r
    ensures forall i, j :: 0 <= i < j < |r| ==>
      Rank(order, r[i].1) < Rank(order, r[j].1) || (r[i].1 == r[j].1 && r[i].2 < r[j].2)
  {
    ForEachFrom(d, order)
  }

  /** `forEach` over the channels listed in `order`, in that order. */
  function ForEachFrom(d: Store, order: seq<string>): (r: seq<(Value, string, nat)>)
    requires forall k :: k in order ==> k in d
    requires Distinct(order)
    ensures forall t :: t in r ==> t.1 in order && t.2 < |d[t.1]| && d[t.1][t.2] == t.0
    ensures forall k, i :: k in order && 0 <= i < |d[k]| ==> (d[k][i], k, i) in r
    ensures forall i, j :: 0 <= i < j < |r| ==>
      Rank(order, r[i].1) < Rank(order, r[j].1) || (r[i].1 == r[j].1 && r[i].2 < r[j].2)
  {
    if order == [] then []
    else
      var head := Triples(order[0], d[order[0]]);
      var rest := ForEachFrom(d, order[1..]);
      RankTail(order);
      head + rest
  }

  /** Past the first channel, ranks in `order` are one more than in its tail. */
  lemma RankTail(order: seq<string>)
    requires order != [] && Distinct(order)
    ensures Distinct(order[1..])
    ensures forall k :: k in order[1..] ==> Rank(order, k) == 1 + Rank(order[1..], k) && Rank(order, k) > 0
  {
    forall k | k in order[1..]
      ensures Rank(order, k) == 1 + Rank(order[1..], k) && Rank(order, k) > 0
    {
      var j :| 0 <= j < |order[1..]| && order[1..][j] == k;
      assert order[j + 1] == k;
    }
  }

  /** `n` successive pushes of `vs` onto one channel. */
  function PushMany(d: Store, channel: ChannelName, vs: seq<Value>): Store
    decreases |vs|
  {
    if vs == [] then d else Push(PushMany(d, channel, vs[..|vs| - 1]), channel, vs[|vs| - 1])
  }

  /** `n` successive pops of one channel, with the values they return in order. */
  function PopMany(d: Store, channel: ChannelName, n: nat): (Store, seq<Value>)
    decreases n
  {
    if n == 0 then (d, [])
    else
      var (d', v) := Pop(d, channel);
      var (d'', vs) := PopMany(d', channel, n - 1);
      (d'', [v] + vs)
  }

  /**
   * One push followed by one pop of the same channel returns the pushed value
   * and restores the store, except that a channel that was present but empty
   * (left so by `remove`) is now gone.
   */
  lemma PushThenPop(d: Store, channel: ChannelName, v: Value)
    ensures var key := KeyOf(channel);
      Pop(Push(d, channel, v), channel)
        == (if key in d && d[key] == [] then d - {key} else d, v)
  {
    var key := KeyOf(channel);
    var (r, u) := Pop(Push(d, channel, v), channel);
    if key in d && d[key] != [] {
      assert d[key] + [v] != [];
      assert (d[key] + [v])[..|d[key]|] == d[key];
      assert r == d;
    } else if key in d {
      assert r == d - {key};
    } else {
      assert r == d;
    }
  }

  /**
   * The stack law: pushing `vs` onto a channel that is absent or non-empty and
   * then popping `|vs|` times returns `vs` reversed and restores the store.
   * A further pop of a channel that was absent returns `undefined`.
   */
  lemma {:induction false} StackLaw(d: Store, channel: ChannelName, vs: seq<Value>)
    requires KeyOf(channel) in d ==> |d[KeyOf(channel)]| > 0
    ensures PopMany(PushMany(d, channel, vs), channel, |vs|) == (d, Reverse(vs))
    decreases |vs|
  {
    if vs != [] {
      var init := vs[..|vs| - 1];
      var last := vs[|vs| - 1];
      var mid := PushMany(d, channel, init);
      PushManyKeepsChannel(d, channel, init);
      PushThenPop(mid, channel, last);
      StackLaw(d, channel, init);
      assert Reverse(vs) == [last] + Reverse(init);
    }
  }

  lemma {:induction false} PushManyKeepsChannel(d: Store, channel: ChannelName, vs: seq<Value>)
    requires KeyOf(channel) in d ==> |d[KeyOf(channel)]| > 0
    ensures var r := PushMany(d, channel, vs);
      KeyOf(channel) in r ==> |r[KeyOf(channel)]| > 0
    decreases |vs|
  {
    if vs != [] {
      PushManyKeepsChannel(d, channel, vs[..|vs| - 1]);
    }
  }

  /** `push` and `pop` keep the "present iff non-empty" invariant. */
  lemma PushPopKeepNoEmptyChannels(d: Store, channel: ChannelName, v: Value)
    requires NoEmptyChannels(d)
    ensures NoEmptyChannels(Push(d, channel, v))
    ensures NoEmptyChannels(Pop(d, channel).0)
  {
  }

  /**
   * Filtering by value does not keep it: `remove(channel, value)` on a
   * channel holding only that value leaves the channel present and empty,
   * in both copies.
   */
  lemma RemoveCanLeaveEmptyChannel(d: Store, channel: ChannelName, v: Value)
    requires v != Undefined && KeyOf(channel) in d
    requires forall i :: 0 <= i < |d[KeyOf(channel)]| ==> d[KeyOf(channel)][i] == v
    ensures var key := KeyOf(channel);
      && key in RemoveInSubscriber(d, Pair(channel, v)) && RemoveInSubscriber(d, Pair(channel, v))[key] == []
      && key in RemoveInSubject(d, Pair(channel, v)) && RemoveInSubject(d, Pair(channel, v))[key] == []
  {
    WithoutOnly(d[KeyOf(channel)], v);
  }

  /** So from a store with no empty channel, one `remove` can reach a store that has one. */
  lemma RemoveBreaksNoEmptyChannels()
    ensures var d := map["a" := [Num(1)]];
      && NoEmptyChannels(d)
      && !NoEmptyChannels(RemoveInSubscriber(d, Pair(Str("a"), Num(1))))
  {
    RemoveCanLeaveEmptyChannel(map["a" := [Num(1)]], Str("a"), Num(1));
  }

  /**
   * Where the copies differ: a string that names no channel is purged as a
   * value by src/subscriber.ts and ignored by src/subject.ts; a number that
   * names a channel deletes it in src/subscriber.ts and is purged as a value
   * in src/subject.ts.
   */
  lemma CopiesDiffer()
    ensures var d := map["a" := [Str("b")]];
      && RemoveInSubscriber(d, Single(Str("b"))) == map["a" := []]
      && RemoveInSubject(d, Single(Str("b"))) == d
    ensures var d := map["1" := [Num(1)]];
      && RemoveInSubscriber(d, Single(Num(1))) == map[]
      && RemoveInSubject(d, Single(Num(1))) == map["1" := []]
  {
    var d := map["a" := [Str("b")]];
    assert Without([Str("b")], Str("b")) == [];
    assert Purge(d, Str("b")) == map["a" := []];
    assert d - {"b"} == d;
    var e := map["1" := [Num(1)]];
    assert KeyOf(Num(1)) == "1";
    assert Without([Num(1)], Num(1)) == [];
    assert Purge(e, Num(1)) == map["1" := []];
  }

  /** The copies agree on every two-argument call. */
  lemma CopiesAgreeOnPairs(d: Store, channel: ChannelName, v: Value)
    requires v != Undefined
    ensures RemoveInSubscriber(d, Pair(channel, v)) == RemoveInSubject(d, Pair(channel, v))
  {
  }
}
