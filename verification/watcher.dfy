/**
 * `Watcher<T>` (src/subscriber.ts, identical in src/subject.ts): a network
 * of single-value cells. Each cell is a `Subscriber` whose listeners are
 * either user callbacks (identity tokens whose calls are recorded in a log)
 * or the closures the class installs itself: the `computed` derivation, the
 * shared callback of the static `Watcher.computed`, and the one-shot `once`
 * waiter. `setData` runs the whole synchronous, depth-first cascade.
 *
 * A derived cell is always created after its sources, so every internal edge
 * points from an older cell to a newer one; that is why a cascade ends.
 */
module Watcher {

  import opened JsValue
  import opened Wrappers
  import opened Seqs
  import Subscriber

  /** A registered listener: a user callback, or the closure of reaction `token`. */
  datatype Listener = User(id: nat) | Internal(token: nat)

  /** The argument of `once`: none, a literal, or a predicate. */
  datatype Condition = AnyChange | Equals(expected: Value) | Satisfies(p: Value -> bool)

  /** The closures `computed`, static `computed` and `once` install. */
  datatype Reaction =
    | Derive(source: nat, target: nat, f: Value -> Value)
    | Combine(sources: seq<nat>, fn: seq<Value> -> seq<Value>, outputs: seq<nat>)
    | Await(owner: nat, cond: Condition)

  /** One watcher: its value, its listener list, and the reaction that writes it, if derived. */
  datatype Cell = Cell(data: Value, events: seq<Listener>, origin: Option<nat>)

  /** One call of a user callback, with the arguments it received. */
  datatype Entry = Entry(listener: nat, args: seq<Value>)

  /**
   * The network: cells by creation order, reactions by creation order, the
   * resolution slot of every `once` handle (keyed by its reaction), and the
   * log of user-callback calls.
   */
  datatype Net = Net(cells: seq<Cell>, reactions: seq<Reaction>, slots: map<nat, Option<Value>>, log: seq<Entry>)

  /** Whether the `once` callback resolves on the new value `v`. */
  predicate Holds(cond: Condition, v: Value) {
    match cond
    case AnyChange => true
    case Equals(e) => v == e
    case Satisfies(p) => p(v)
  }

  /** Reaction `r` is registered on (listens to) cell `c`. */
  predicate Feeds(r: Reaction, c: nat) {
    match r
    case Derive(s, _, _) => s == c
    case Combine(ss, _, _) => c in ss
    case Await(o, _) => o == c
  }

  /** Reaction `r` calls `setData` on cell `y`. */
  predicate Writes(r: Reaction, y: nat) {
    match r
    case Derive(_, tg, _) => tg == y
    case Combine(_, _, os) => y in os
    case Await(_, _) => false
  }

  ghost predicate ReactionOk(net: Net, t: nat)
    requires t < |net.reactions|
  {
    var n := |net.cells|;
    match net.reactions[t]
    case Derive(s, tg, _) => s < tg < n && net.cells[tg].origin == Some(t)
    case Combine(ss, _, os) =>
      && (forall i :: 0 <= i < |ss| ==> ss[i] < n)
      && (forall j :: 0 <= j < |os| ==> os[j] < n && net.cells[os[j]].origin == Some(t))
      && (forall i, j :: 0 <= i < |ss| && 0 <= j < |os| ==> ss[i] < os[j])
      && (forall j, k :: 0 <= j < k < |os| ==> os[j] != os[k])
    case Await(o, _) => o < n && t in net.slots
  }

  ghost predicate ListenerOk(reactions: seq<Reaction>, c: nat, l: Listener) {
    l.Internal? ==> l.token < |reactions| && Feeds(reactions[l.token], c)
  }

  /**
   * Well-formed network: reactions point at existing cells, sources before
   * outputs; every derived cell names its only writer; every internal
   * listener is registered on a cell its reaction listens to.
   */
  ghost predicate WF(net: Net) {
    && (forall t :: 0 <= t < |net.reactions| ==> ReactionOk(net, t))
    && (forall y :: 0 <= y < |net.cells| && net.cells[y].origin.Some? ==>
          net.cells[y].origin.value < |net.reactions| && Writes(net.reactions[net.cells[y].origin.value], y))
    && (forall y, l :: 0 <= y < |net.cells| && l in net.cells[y].events ==> ListenerOk(net.reactions, y, l))
  }

  /**
   * What a cascade never changes: the cells, reactions and handles that
   * exist, who writes which cell; listener lists only lose entries, the log
   * only grows, and a resolved handle keeps its value.
   */
  ghost predicate Preserves(net: Net, r: Net) {
    && |r.cells| == |net.cells|
    && r.reactions == net.reactions
    && r.slots.Keys == net.slots.Keys
    && (forall y :: 0 <= y < |net.cells| ==> r.cells[y].origin == net.cells[y].origin)
    && (forall y, l :: 0 <= y < |net.cells| && l in r.cells[y].events ==> l in net.cells[y].events)
    && net.log <= r.log
    && (forall t :: t in net.slots && net.slots[t].Some? ==> r.slots[t] == net.slots[t])
  }

  lemma PreservesWF(net: Net, r: Net)
    requires WF(net) && Preserves(net, r)
    ensures WF(r)
  {
    forall t | 0 <= t < |r.reactions|
      ensures ReactionOk(r, t)
    {
      assert ReactionOk(net, t);
    }
  }

  /** The current values of the given cells, `watchers.map(({ _data }) => _data)`. */
  function Current(net: Net, ss: seq<nat>): (r: seq<Value>)
    requires forall i :: 0 <= i < |ss| ==> ss[i] < |net.cells|
    ensures |r| == |ss|
    ensures forall i :: 0 <= i < |ss| ==> r[i] == net.cells[ss[i]].data
  {
    seq(|ss|, i requires 0 <= i < |ss| => net.cells[ss[i]].data)
  }

  /** Store a value in a cell without notifying. */
  function WithData(net: Net, x: nat, v: Value): (r: Net)
    requires WF(net) && x < |net.cells|
    ensures WF(r) && Preserves(net, r)
    ensures r.cells[x].data == v
    ensures forall y :: 0 <= y < |net.cells| && y != x ==> r.cells[y] == net.cells[y]
    ensures r.cells[x].events == net.cells[x].events
    ensures r.slots == net.slots && r.log == net.log
  {
    var r := net.(cells := net.cells[x := net.cells[x].(data := v)]);
    PreservesWF(net, r);
    r
  }

  /**
   * The `once` callback on a satisfying value: `this.unObserve(callback)`,
   * then `resolve(item)`; resolving an already-settled promise changes nothing.
   */
  function Settle(net: Net, t: nat, v: Value): (r: Net)
    requires WF(net) && t < |net.reactions| && net.reactions[t].Await?
    ensures WF(r) && Preserves(net, r)
    ensures var o := net.reactions[t].owner;
      && o < |net.cells|
      && r.cells[o].events == Without(net.cells[o].events, Internal(t))
      && (forall y :: 0 <= y < |net.cells| && y != o ==> r.cells[y] == net.cells[y])
      && r.cells[o].data == net.cells[o].data
    ensures t in net.slots && r.slots == net.slots[t := if net.slots[t].Some? then net.slots[t] else Some(v)]
    ensures r.log == net.log
  {
    assert ReactionOk(net, t);
    var o := net.reactions[t].owner;
    var cell := net.cells[o];
    var slot := if net.slots[t].Some? then net.slots[t] else Some(v);
    var r := net.(cells := net.cells[o := cell.(events := Without(cell.events, Internal(t)))],
                  slots := net.slots[t := slot]);
    PreservesWF(net, r);
    r
  }

  /**
   * `setData(v)`: when `v !== data`, store `v` first, then call every listener
   * of the list as it was when the call began, in order, with `(v, last)`.
   */
  function SetData(net: Net, x: nat, v: Value): (r: Net)
    requires WF(net) && x < |net.cells|
    ensures WF(r) && Preserves(net, r)
    decreases |net.cells| - x, 3, 0
  {
    var before := net.cells[x];
    if v == before.data then net
    else
      var net1 := WithData(net, x, v);
      RunListeners(net1, x, before.events, 0, v, before.data)
  }

  /** The `forEach` of `notify` over the snapshot `snap`, from index `i` on. */
  function RunListeners(net: Net, c: nat, snap: seq<Listener>, i: nat, newVal: Value, lastVal: Value): (r: Net)
    requires WF(net) && c < |net.cells| && i <= |snap|
    requires forall l :: l in snap ==> ListenerOk(net.reactions, c, l)
    ensures WF(r) && Preserves(net, r)
    decreases |net.cells| - c, 2, |snap| - i
  {
    if i == |snap| then net
    else
      var net1 := Fire(net, c, snap[i], newVal, lastVal);
      RunListeners(net1, c, snap, i + 1, newVal, lastVal)
  }

  /** One listener call `cb(newVal, lastVal)` during the notification of cell `c`. */
  function Fire(net: Net, c: nat, l: Listener, newVal: Value, lastVal: Value): (r: Net)
    requires WF(net) && c < |net.cells| && ListenerOk(net.reactions, c, l)
    ensures WF(r) && Preserves(net, r)
    decreases |net.cells| - c, 1, 0
  {
    match l
    case User(id) =>
      var r := net.(log := net.log + [Entry(id, [newVal, lastVal])]);
      PreservesWF(net, r);
      r
    case Internal(t) =>
      assert ReactionOk(net, t);
      match net.reactions[t]
      case Derive(_, tg, f) => SetData(net, tg, f(newVal))
      case Combine(ss, fn, _) => SetAll(net, c, t, fn(Current(net, ss)), 0)
      case Await(_, cond) => if Holds(cond, newVal) then Settle(net, t, newVal) else net
  }

  /** `cb(...current).forEach((val, i) => newWatchers[i].setData(val))`, from slot `j` on. */
  function SetAll(net: Net, c: nat, t: nat, vals: seq<Value>, j: nat): (r: Net)
    requires WF(net) && c < |net.cells| && t < |net.reactions|
    requires net.reactions[t].Combine? && Feeds(net.reactions[t], c)
    ensures WF(r) && Preserves(net, r)
    decreases |net.cells| - c, 0, |vals| - j
  {
    var os := net.reactions[t].outputs;
    if j >= |vals| || j >= |os| then net
    else
      assert ReactionOk(net, t);
      var i :| 0 <= i < |net.reactions[t].sources| && net.reactions[t].sources[i] == c;
      assert c < os[j];
      SetAll(SetData(net, os[j], vals[j]), c, t, vals, j + 1)
  }

  // ----- Which cells a cascade can touch -----

  /**
   * Cell `y` lies downstream of cell `z`: some reaction listening to `z`
   * writes a cell that is `y` or has `y` downstream.
   */
  ghost predicate Reach(reactions: seq<Reaction>, n: nat, z: nat, y: nat)
    decreases n - z
  {
    z < n &&
    exists t: nat, w: nat :: Edge(reactions, t, z, w) && z < w < n && (w == y || Reach(reactions, n, w, y))
  }

  /** Reaction `t` listens to cell `z` and writes cell `w`. */
  ghost predicate Edge(reactions: seq<Reaction>, t: nat, z: nat, w: nat) {
    t < |reactions| && Feeds(reactions[t], z) && Writes(reactions[t], w)
  }

  /** Cell `y` is written by reaction `t` fired from cell `c`, or lies downstream of what `t` writes. */
  ghost predicate FromToken(reactions: seq<Reaction>, n: nat, t: nat, c: nat, y: nat) {
    t < |reactions| && exists w: nat :: Writes(reactions[t], w) && c < w < n && (w == y || Reach(reactions, n, w, y))
  }

  /** Reaction `t` is a `once` waiter on cell `c` or on a cell downstream of `c`. */
  ghost predicate AwaitAt(reactions: seq<Reaction>, n: nat, t: nat, c: nat) {
    t < |reactions| && reactions[t].Await? && (reactions[t].owner == c || Reach(reactions, n, c, reactions[t].owner))
  }

  lemma ReachStep(reactions: seq<Reaction>, n: nat, t: nat, c: nat, w: nat, y: nat)
    requires t < |reactions| && Feeds(reactions[t], c) && Writes(reactions[t], w) && c < w < n
    requires w == y || Reach(reactions, n, w, y)
    ensures Reach(reactions, n, c, y)
  {
    assert Edge(reactions, t, c, w);
  }

  lemma FromTokenReach(reactions: seq<Reaction>, n: nat, t: nat, c: nat, y: nat)
    requires t < |reactions| && Feeds(reactions[t], c) && FromToken(reactions, n, t, c, y)
    ensures Reach(reactions, n, c, y)
  {
    var w: nat :| Writes(reactions[t], w) && c < w < n && (w == y || Reach(reactions, n, w, y));
    ReachStep(reactions, n, t, c, w, y);
  }

  /** Downstream means newer: a cascade never reaches back to its own cell or an older one. */
  lemma {:induction false} ReachIncreases(reactions: seq<Reaction>, n: nat, z: nat, y: nat)
    requires Reach(reactions, n, z, y)
    ensures z < y
    decreases n - z
  {
    var t: nat, w: nat :| Edge(reactions, t, z, w) && z < w < n && (w == y || Reach(reactions, n, w, y));
    if w != y {
      ReachIncreases(reactions, n, w, y);
    }
  }

  /**
   * The last edge of a downstream path: a reaction that writes `y` and listens
   * to `w` itself or to a cell downstream of `w`.
   */
  lemma {:induction false} ReachLastEdge(reactions: seq<Reaction>, n: nat, w: nat, y: nat)
    requires Reach(reactions, n, w, y)
    ensures exists t: nat, z: nat :: Edge(reactions, t, z, y) && (z == w || Reach(reactions, n, w, z))
    decreases n - w
  {
    var t: nat, w1: nat :| Edge(reactions, t, w, w1) && w < w1 < n && (w1 == y || Reach(reactions, n, w1, y));
    if w1 != y {
      ReachLastEdge(reactions, n, w1, y);
      var t': nat, z: nat :| Edge(reactions, t', z, y) && (z == w1 || Reach(reactions, n, w1, z));
      if z != w1 {
        ReachStep(reactions, n, t, w, w1, z);
      }
      assert Reach(reactions, n, w, z);
    }
  }

  lemma {:induction false} SetDataFrame(net: Net, x: nat, v: Value)
    requires WF(net) && x < |net.cells|
    ensures var r := SetData(net, x, v); var rs := net.reactions; var n := |net.cells|;
      && r.cells[x].data == v
      && (forall y :: 0 <= y < n && r.cells[y].data != net.cells[y].data ==> y == x || Reach(rs, n, x, y))
      && (forall y :: 0 <= y < n && r.cells[y].events != net.cells[y].events ==> y == x || Reach(rs, n, x, y))
      && (forall t :: t in net.slots && r.slots[t] != net.slots[t] ==> AwaitAt(rs, n, t, x))
    decreases |net.cells| - x, 3, 0
  {
    var before := net.cells[x];
    if v != before.data {
      var net1 := WithData(net, x, v);
      RunListenersFrame(net1, x, before.events, 0, v, before.data);
      var r := SetData(net, x, v);
      if r.cells[x].data != v {
        ReachIncreases(net.reactions, |net.cells|, x, x);
      }
    }
  }

  lemma {:induction false} RunListenersFrame(net: Net, c: nat, snap: seq<Listener>, i: nat, newVal: Value, lastVal: Value)
    requires WF(net) && c < |net.cells| && i <= |snap|
    requires forall l :: l in snap ==> ListenerOk(net.reactions, c, l)
    ensures var r := RunListeners(net, c, snap, i, newVal, lastVal); var rs := net.reactions; var n := |net.cells|;
      && (forall y :: 0 <= y < n && r.cells[y].data != net.cells[y].data ==> Reach(rs, n, c, y))
      && (forall y :: 0 <= y < n && r.cells[y].events != net.cells[y].events ==> y == c || Reach(rs, n, c, y))
      && (forall t :: t in net.slots && r.slots[t] != net.slots[t] ==> AwaitAt(rs, n, t, c))
    decreases |net.cells| - c, 2, |snap| - i
  {
    if i < |snap| {
      var rs := net.reactions;
      var n := |net.cells|;
      var l := snap[i];
      var net1 := Fire(net, c, l, newVal, lastVal);
      FireFrame(net, c, l, newVal, lastVal);
      RunListenersFrame(net1, c, snap, i + 1, newVal, lastVal);
      var r := RunListeners(net, c, snap, i, newVal, lastVal);
      assert r == RunListeners(net1, c, snap, i + 1, newVal, lastVal);
      forall y | 0 <= y < n && r.cells[y].data != net.cells[y].data
        ensures Reach(rs, n, c, y)
      {
        if net1.cells[y].data != net.cells[y].data {
          FromTokenReach(rs, n, l.token, c, y);
        }
      }
      forall t | t in net.slots && r.slots[t] != net.slots[t]
        ensures AwaitAt(rs, n, t, c)
      {
        if net1.slots[t] != net.slots[t] && l == Internal(t) {
          assert Feeds(rs[t], c);
        }
      }
    }
  }

  lemma {:induction false} FireFrame(net: Net, c: nat, l: Listener, newVal: Value, lastVal: Value)
    requires WF(net) && c < |net.cells| && ListenerOk(net.reactions, c, l)
    ensures var r := Fire(net, c, l, newVal, lastVal); var rs := net.reactions; var n := |net.cells|;
      && (forall y :: 0 <= y < n && r.cells[y].data != net.cells[y].data ==>
            l.Internal? && FromToken(rs, n, l.token, c, y))
      && (forall y :: 0 <= y < n && r.cells[y].events != net.cells[y].events ==> y == c || Reach(rs, n, c, y))
      && (forall t :: t in net.slots && r.slots[t] != net.slots[t] ==>
            t < |rs| && rs[t].Await? && (l == Internal(t) || Reach(rs, n, c, rs[t].owner)))
    decreases |net.cells| - c, 1, 0
  {
    var rs := net.reactions;
    var n := |net.cells|;
    var r := Fire(net, c, l, newVal, lastVal);
    if l.Internal? {
      var t := l.token;
      assert ReactionOk(net, t);
      match rs[t]
      case Derive(_, tg, f) =>
        SetDataFrame(net, tg, f(newVal));
        forall y | 0 <= y < n && r.cells[y].data != net.cells[y].data
          ensures FromToken(rs, n, t, c, y)
        {
          assert Writes(rs[t], tg);
        }
        forall y | 0 <= y < n && r.cells[y].events != net.cells[y].events
          ensures y == c || Reach(rs, n, c, y)
        {
          ReachStep(rs, n, t, c, tg, y);
        }
        forall t' | t' in net.slots && r.slots[t'] != net.slots[t']
          ensures Reach(rs, n, c, rs[t'].owner)
        {
          ReachStep(rs, n, t, c, tg, rs[t'].owner);
        }
      case Combine(ss, fn, _) =>
        SetAllFrame(net, c, t, fn(Current(net, ss)), 0);
      case Await(_, cond) =>
    }
  }

  lemma {:induction false} SetAllFrame(net: Net, c: nat, t: nat, vals: seq<Value>, j: nat)
    requires WF(net) && c < |net.cells| && t < |net.reactions|
    requires net.reactions[t].Combine? && Feeds(net.reactions[t], c)
    ensures var r := SetAll(net, c, t, vals, j); var rs := net.reactions; var n := |net.cells|;
      && (forall y :: 0 <= y < n && r.cells[y].data != net.cells[y].data ==> FromToken(rs, n, t, c, y))
      && (forall y :: 0 <= y < n && r.cells[y].events != net.cells[y].events ==> Reach(rs, n, c, y))
      && (forall t' :: t' in net.slots && r.slots[t'] != net.slots[t'] ==>
            t' < |rs| && rs[t'].Await? && Reach(rs, n, c, rs[t'].owner))
    decreases |net.cells| - c, 0, |vals| - j
  {
    var rs := net.reactions;
    var n := |net.cells|;
    var os := rs[t].outputs;
    if j < |vals| && j < |os| {
      assert ReactionOk(net, t);
      var i :| 0 <= i < |rs[t].sources| && rs[t].sources[i] == c;
      assert c < os[j] < n;
      assert Writes(rs[t], os[j]);
      var net1 := SetData(net, os[j], vals[j]);
      SetDataFrame(net, os[j], vals[j]);
      SetAllFrame(net1, c, t, vals, j + 1);
      var r := SetAll(net, c, t, vals, j);
      assert r == SetAll(net1, c, t, vals, j + 1);
      forall y | 0 <= y < n && r.cells[y].events != net.cells[y].events
        ensures Reach(rs, n, c, y)
      {
        if net1.cells[y].events != net.cells[y].events {
          ReachStep(rs, n, t, c, os[j], y);
        }
      }
      forall t' | t' in net.slots && r.slots[t'] != net.slots[t']
        ensures Reach(rs, n, c, rs[t'].owner)
      {
        if net1.slots[t'] != net.slots[t'] {
          ReachStep(rs, n, t, c, os[j], rs[t'].owner);
        }
      }
    }
  }

  // ----- Building the network -----

  /**
   * A network grown from `net`: cells and reactions appended, existing cells
   * keep who writes them and existing handles stay. Every reaction that was
   * well placed stays well placed.
   */
  lemma GrowKeepsReactionsOk(net: Net, r: Net)
    requires WF(net)
    requires |net.cells| <= |r.cells| && |net.reactions| <= |r.reactions|
    requires r.reactions[..|net.reactions|] == net.reactions
    requires forall y :: 0 <= y < |net.cells| ==> r.cells[y].origin == net.cells[y].origin
    requires net.slots.Keys <= r.slots.Keys
    ensures forall t :: 0 <= t < |net.reactions| ==> ReactionOk(r, t)
  {
    forall t | 0 <= t < |net.reactions|
      ensures ReactionOk(r, t)
    {
      assert ReactionOk(net, t);
      assert r.reactions[t] == net.reactions[t];
    }
  }

  /** `new Watcher(initVal)`: a fresh cell with no listeners, numbered after every existing one. */
  function Create(net: Net, init: Value): (r: (Net, nat))
    requires WF(net)
    ensures WF(r.0)
    ensures r.1 == |net.cells| && r.0.cells == net.cells + [Cell(init, [], None)]
    ensures r.0.reactions == net.reactions && r.0.slots == net.slots && r.0.log == net.log
  {
    var r := net.(cells := net.cells + [Cell(init, [], None)]);
    GrowKeepsReactionsOk(net, r);
    (r, |net.cells|)
  }

  /**
   * `observe(event, immediately)`: register the callback; when `immediately`
   * is set, call it at once with the single argument `data`.
   */
  function Observe(net: Net, x: nat, id: nat, immediately: bool): (r: Net)
    requires WF(net) && x < |net.cells|
    ensures WF(r) && |r.cells| == |net.cells|
    ensures r.cells[x].events == Subscriber.Observe(net.cells[x].events, User(id))
    ensures r.cells[x].data == net.cells[x].data && r.cells[x].origin == net.cells[x].origin
    ensures forall y :: 0 <= y < |net.cells| && y != x ==> r.cells[y] == net.cells[y]
    ensures r.reactions == net.reactions && r.slots == net.slots
    ensures r.log == net.log + (if immediately then [Entry(id, [net.cells[x].data])] else [])
  {
    var cell := net.cells[x];
    var r := net.(cells := net.cells[x := cell.(events := cell.events + [User(id)])],
                  log := net.log + (if immediately then [Entry(id, [cell.data])] else []));
    GrowKeepsReactionsOk(net, r);
    r
  }

  /**
   * `unObserve(ev?)`: with no callback every listener goes, the internal ones
   * of `computed` and `once` included; with a callback, every registration of it.
   */
  function UnObserve(net: Net, x: nat, ev: Option<nat>): (r: Net)
    requires WF(net) && x < |net.cells|
    ensures WF(r) && Preserves(net, r)
    ensures ev.None? ==> r.cells[x].events == []
    ensures ev.Some? ==> r.cells[x].events == Without(net.cells[x].events, User(ev.value))
    ensures r.cells[x].data == net.cells[x].data
    ensures forall y :: 0 <= y < |net.cells| && y != x ==> r.cells[y] == net.cells[y]
    ensures r.slots == net.slots && r.log == net.log
  {
    var cell := net.cells[x];
    var events := match ev case None => [] case Some(id) => Without(cell.events, User(id));
    var r := net.(cells := net.cells[x := cell.(events := events)]);
    PreservesWF(net, r);
    r
  }

  /**
   * `once(val?)`: a pending handle whose callback is registered on cell `x`;
   * it waits for any change, for a value `=== val`, or for `val(item)` to hold.
   */
  function Once(net: Net, x: nat, cond: Condition): (r: (Net, nat))
    requires WF(net) && x < |net.cells|
    ensures WF(r.0)
    ensures var t := r.1;
      && t == |net.reactions| && r.0.reactions == net.reactions + [Await(x, cond)]
      && r.0.slots == net.slots[t := None]
      && |r.0.cells| == |net.cells|
      && r.0.cells[x].events == Subscriber.Observe(net.cells[x].events, Internal(t))
      && r.0.cells[x].data == net.cells[x].data
      && (forall y :: 0 <= y < |net.cells| && y != x ==> r.0.cells[y] == net.cells[y])
    ensures r.0.log == net.log
  {
    var t := |net.reactions|;
    var cell := net.cells[x];
    var r := net.(cells := net.cells[x := cell.(events := cell.events + [Internal(t)])],
                  reactions := net.reactions + [Await(x, cond)],
                  slots := net.slots[t := None]);
    GrowKeepsReactionsOk(net, r);
    assert ReactionOk(r, t);
    (r, t)
  }

  /**
   * `computed(cb)`: a new cell holding `cb(data)`, kept up to date by a
   * callback registered on cell `x` that calls `setData(cb(val))` on it.
   */
  function Computed(net: Net, x: nat, f: Value -> Value): (r: (Net, nat))
    requires WF(net) && x < |net.cells|
    ensures WF(r.0)
    ensures var n := |net.cells|; var t := |net.reactions|;
      && r.1 == n && r.0.reactions == net.reactions + [Derive(x, n, f)]
      && |r.0.cells| == n + 1
      && r.0.cells[n] == Cell(f(net.cells[x].data), [], Some(t))
      && r.0.cells[x].events == Subscriber.Observe(net.cells[x].events, Internal(t))
      && r.0.cells[x].data == net.cells[x].data
      && (forall y :: 0 <= y < n && y != x ==> r.0.cells[y] == net.cells[y])
    ensures r.0.slots == net.slots && r.0.log == net.log
  {
    var n := |net.cells|;
    var t := |net.reactions|;
    var cell := net.cells[x];
    var r := net.(cells := net.cells[x := cell.(events := cell.events + [Internal(t)])] + [Cell(f(cell.data), [], Some(t))],
                  reactions := net.reactions + [Derive(x, n, f)]);
    GrowKeepsReactionsOk(net, r);
    assert ReactionOk(r, t);
    (r, n)
  }

  /** `watchers.forEach((watcher) => watcher.observe(l))`: one registration per occurrence in `ss`. */
  function RegisterAll(cells: seq<Cell>, ss: seq<nat>, l: Listener): (r: seq<Cell>)
    requires forall i :: 0 <= i < |ss| ==> ss[i] < |cells|
    ensures |r| == |cells|
    ensures forall y :: 0 <= y < |cells| ==>
      && r[y].data == cells[y].data && r[y].origin == cells[y].origin
      && |cells[y].events| <= |r[y].events| && r[y].events[..|cells[y].events|] == cells[y].events
      && (forall k :: |cells[y].events| <= k < |r[y].events| ==> r[y].events[k] == l)
      && Count(r[y].events, l) == Count(cells[y].events, l) + Count(ss, y)
    ensures forall y, m :: 0 <= y < |cells| && m in r[y].events ==> m in cells[y].events || (m == l && y in ss)
    decreases |ss|
  {
    if ss == [] then cells
    else
      var y0 := ss[|ss| - 1];
      var front := RegisterAll(cells, ss[..|ss| - 1], l);
      var r := front[y0 := front[y0].(events := front[y0].events + [l])];
      assert ss == ss[..|ss| - 1] + [y0];
      forall y | 0 <= y < |cells|
        ensures Count(r[y].events, l) == Count(cells[y].events, l) + Count(ss, y)
      {
        CountAppend(ss[..|ss| - 1], [y0], y);
        CountAppend(front[y].events, [l], l);
      }
      r
  }

  /** The network static `Watcher.computed` builds, with the fresh cells numbered from `|cells|`. */
  function CombineNet(net: Net, ss: seq<nat>, fn: seq<Value> -> seq<Value>): Net
    requires forall i :: 0 <= i < |ss| ==> ss[i] < |net.cells|
  {
    var n := |net.cells|;
    var t := |net.reactions|;
    var init := fn(Current(net, ss));
    var os := seq(|init|, j requires 0 <= j < |init| => n + j);
    var added := seq(|init|, j requires 0 <= j < |init| => Cell(init[j], [], Some(t)));
    net.(cells := RegisterAll(net.cells, ss, Internal(t)) + added,
         reactions := net.reactions + [Combine(ss, fn, os)])
  }

  lemma CombineNetWF(net: Net, ss: seq<nat>, fn: seq<Value> -> seq<Value>)
    requires WF(net) && forall i :: 0 <= i < |ss| ==> ss[i] < |net.cells|
    ensures WF(CombineNet(net, ss, fn))
  {
    var r := CombineNet(net, ss, fn);
    var n := |net.cells|;
    var t := |net.reactions|;
    var front := RegisterAll(net.cells, ss, Internal(t));
    assert forall y :: 0 <= y < n ==> r.cells[y] == front[y];
    GrowKeepsReactionsOk(net, r);
    assert ReactionOk(r, t);
    forall y | 0 <= y < |r.cells| && r.cells[y].origin.Some?
      ensures r.cells[y].origin.value < |r.reactions| && Writes(r.reactions[r.cells[y].origin.value], y)
    {
      if y < n {
        assert r.reactions[net.cells[y].origin.value] == net.reactions[net.cells[y].origin.value];
      } else {
        assert r.reactions[t].outputs[y - n] == y;
      }
    }
  }

  /**
   * Static `Watcher.computed(watchers, cb)`: one new cell per value of
   * `cb(...current)`, all kept up to date by one shared callback registered
   * on every source in order (twice on a source listed twice).
   */
  function StaticComputed(net: Net, ss: seq<nat>, fn: seq<Value> -> seq<Value>): (r: (Net, seq<nat>))
    requires WF(net) && forall i :: 0 <= i < |ss| ==> ss[i] < |net.cells|
    ensures WF(r.0)
    ensures var n := |net.cells|; var t := |net.reactions|; var init := fn(Current(net, ss));
      && |r.1| == |init| && |r.0.cells| == n + |init|
      && (forall j :: 0 <= j < |init| ==> r.1[j] == n + j && r.0.cells[n + j] == Cell(init[j], [], Some(t)))
      && r.0.reactions == net.reactions + [Combine(ss, fn, r.1)]
      && (forall y :: 0 <= y < n ==>
            && r.0.cells[y].data == net.cells[y].data
            && r.0.cells[y].origin == net.cells[y].origin
            && |net.cells[y].events| <= |r.0.cells[y].events|
            && r.0.cells[y].events[..|net.cells[y].events|] == net.cells[y].events
            && Count(r.0.cells[y].events, Internal(t)) == Count(net.cells[y].events, Internal(t)) + Count(ss, y))
    ensures r.0.slots == net.slots && r.0.log == net.log
  {
    var r := CombineNet(net, ss, fn);
    CombineNetWF(net, ss, fn);
    var init := fn(Current(net, ss));
    var front := RegisterAll(net.cells, ss, Internal(|net.reactions|));
    assert forall y :: 0 <= y < |net.cells| ==> r.cells[y] == front[y];
    (r, seq(|init|, j requires 0 <= j < |init| => |net.cells| + j))
  }

  // ----- What a cascade does -----

  /** A derived cell names the one reaction that writes it. */
  lemma WriterUnique(net: Net, t: nat, y: nat)
    requires WF(net) && t < |net.reactions| && Writes(net.reactions[t], y)
    ensures y < |net.cells| && net.cells[y].origin == Some(t)
  {
    assert ReactionOk(net, t);
    if net.reactions[t].Combine? {
      var os := net.reactions[t].outputs;
      var j :| 0 <= j < |os| && os[j] == y;
    }
  }

  /** Whatever a cascade can write downstream of a cell is a derived cell. */
  lemma ReachDerived(net: Net, z: nat, y: nat)
    requires WF(net) && Reach(net.reactions, |net.cells|, z, y)
    ensures y < |net.cells| && net.cells[y].origin.Some?
  {
    ReachLastEdge(net.reactions, |net.cells|, z, y);
    var t: nat, w: nat :| Edge(net.reactions, t, w, y) && (w == z || Reach(net.reactions, |net.cells|, z, w));
    WriterUnique(net, t, y);
  }

  lemma FromTokenDerived(net: Net, t: nat, c: nat, y: nat)
    requires WF(net) && FromToken(net.reactions, |net.cells|, t, c, y)
    ensures y < |net.cells| && net.cells[y].origin.Some?
  {
    var w: nat :| Writes(net.reactions[t], w) && c < w < |net.cells| && (w == y || Reach(net.reactions, |net.cells|, w, y));
    if w == y {
      WriterUnique(net, t, y);
    } else {
      ReachDerived(net, w, y);
    }
  }

  /**
   * `setData` stores the value, then leaves every cell that is not
   * downstream of `x` with its value; in particular no cell created without
   * a `computed` (a root) changes, except `x` itself.
   */
  lemma SetDataKeepsRoots(net: Net, x: nat, v: Value, y: nat)
    requires WF(net) && x < |net.cells| && y < |net.cells| && y != x && net.cells[y].origin.None?
    ensures SetData(net, x, v).cells[y].data == net.cells[y].data
  {
    SetDataFrame(net, x, v);
    if SetData(net, x, v).cells[y].data != net.cells[y].data {
      ReachDerived(net, x, y);
    }
  }

  /** One log entry per user listener of the snapshot, `[newVal, lastVal]` each. */
  function UserEntries(calls: seq<Subscriber.Call<Listener, Value>>): (r: seq<Entry>)
    requires forall i :: 0 <= i < |calls| ==> calls[i].listener.User?
    ensures |r| == |calls|
    ensures forall i :: 0 <= i < |calls| ==>
      r[i] == Entry(calls[i].listener.id, [calls[i].newVal, calls[i].lastVal])
  {
    seq(|calls|, i requires 0 <= i < |calls| => Entry(calls[i].listener.id, [calls[i].newVal, calls[i].lastVal]))
  }

  lemma {:induction false} RunListenersUsers(net: Net, c: nat, snap: seq<Listener>, i: nat, newVal: Value, lastVal: Value)
    requires WF(net) && c < |net.cells| && i <= |snap|
    requires forall k :: 0 <= k < |snap| ==> snap[k].User?
    ensures forall l :: l in snap ==> ListenerOk(net.reactions, c, l)
    ensures RunListeners(net, c, snap, i, newVal, lastVal)
      == net.(log := net.log + UserEntries(Subscriber.Notify(snap[i..], newVal, lastVal)))
    decreases |snap| - i
  {
    var calls := Subscriber.Notify(snap[i..], newVal, lastVal);
    if i == |snap| {
      assert net.log + UserEntries(calls) == net.log;
    } else {
      var e := Entry(snap[i].id, [newVal, lastVal]);
      var net1 := Fire(net, c, snap[i], newVal, lastVal);
      assert net1 == net.(log := net.log + [e]);
      RunListenersUsers(net1, c, snap, i + 1, newVal, lastVal);
      var rest := Subscriber.Notify(snap[i + 1..], newVal, lastVal);
      UserEntriesStep(snap, i, newVal, lastVal);
      AppendAssoc(net.log, [e], UserEntries(rest));
    }
  }

  /** The user calls of a snapshot from `i` on: the call of `snap[i]`, then the rest. */
  lemma UserEntriesStep(snap: seq<Listener>, i: nat, newVal: Value, lastVal: Value)
    requires i < |snap| && forall k :: 0 <= k < |snap| ==> snap[k].User?
    ensures UserEntries(Subscriber.Notify(snap[i..], newVal, lastVal))
      == [Entry(snap[i].id, [newVal, lastVal])] + UserEntries(Subscriber.Notify(snap[i + 1..], newVal, lastVal))
  {
    var calls := Subscriber.Notify(snap[i..], newVal, lastVal);
    var rest := Subscriber.Notify(snap[i + 1..], newVal, lastVal);
    assert forall k :: 0 <= k < |rest| ==> rest[k] == calls[k + 1];
  }

  /** Setting the value a cell already holds (`===`) changes nothing and notifies nobody, whatever listens. */
  lemma SetDataSameValue(net: Net, x: nat, v: Value)
    requires WF(net) && x < |net.cells|
    ensures v == net.cells[x].data ==> SetData(net, x, v) == net
  {
  }

  /**
   * With only user callbacks on `x`, `setData(v)` on a new value stores it
   * and makes exactly the calls `notify(v, last)` makes, in order; on the
   * same value (`===`) it does nothing at all.
   */
  lemma SetDataNotifiesUsers(net: Net, x: nat, v: Value)
    requires WF(net) && x < |net.cells|
    requires forall k :: 0 <= k < |net.cells[x].events| ==> net.cells[x].events[k].User?
    ensures var r := SetData(net, x, v); var before := net.cells[x];
      if v == before.data then r == net
      else
        && r.cells == net.cells[x := before.(data := v)]
        && r.log == net.log + UserEntries(Subscriber.Notify(before.events, v, before.data))
        && r.slots == net.slots
  {
    var before := net.cells[x];
    if v != before.data {
      RunListenersUsers(WithData(net, x, v), x, before.events, 0, v, before.data);
      assert before.events[0..] == before.events;
    }
  }

  /**
   * A cell whose only writer listens to `c` alone is changed by no other
   * listener of `c`: anything else that fires writes it neither directly nor
   * through a chain, because chains only climb to newer cells.
   */
  lemma OtherListenerKeepsTarget(net: Net, c: nat, l: Listener, newVal: Value, lastVal: Value, t: nat)
    requires WF(net) && c < |net.cells| && ListenerOk(net.reactions, c, l)
    requires t < |net.reactions| && net.reactions[t].Derive? && net.reactions[t].source == c
    requires l != Internal(t)
    ensures var tg := net.reactions[t].target;
      tg < |net.cells| && Fire(net, c, l, newVal, lastVal).cells[tg].data == net.cells[tg].data
  {
    var rs := net.reactions;
    var n := |net.cells|;
    var tg := rs[t].target;
    assert ReactionOk(net, t);
    FireFrame(net, c, l, newVal, lastVal);
    if Fire(net, c, l, newVal, lastVal).cells[tg].data != net.cells[tg].data {
      var w: nat :| Writes(rs[l.token], w) && c < w < n && (w == tg || Reach(rs, n, w, tg));
      if w == tg {
        WriterUnique(net, l.token, tg);
        assert false;
      } else {
        ReachLastEdge(rs, n, w, tg);
        var t': nat, z: nat :| Edge(rs, t', z, tg) && (z == w || Reach(rs, n, w, z));
        WriterUnique(net, t', tg);
        if z != w {
          ReachIncreases(rs, n, w, z);
        }
        assert false;
      }
    }
  }

  lemma {:induction false} RunListenersDerive(net: Net, c: nat, snap: seq<Listener>, i: nat, newVal: Value, lastVal: Value, t: nat)
    requires WF(net) && c < |net.cells| && i <= |snap|
    requires forall l :: l in snap ==> ListenerOk(net.reactions, c, l)
    requires t < |net.reactions| && net.reactions[t].Derive? && net.reactions[t].source == c
    requires var d := net.reactions[t];
      Internal(t) in snap[i..] || (d.target < |net.cells| && net.cells[d.target].data == d.f(newVal))
    ensures var d := net.reactions[t];
      d.target < |net.cells| && RunListeners(net, c, snap, i, newVal, lastVal).cells[d.target].data == d.f(newVal)
    decreases |snap| - i
  {
    var d := net.reactions[t];
    assert ReactionOk(net, t);
    if i < |snap| {
      var net1 := Fire(net, c, snap[i], newVal, lastVal);
      if snap[i] == Internal(t) {
        SetDataFrame(net, d.target, d.f(newVal));
      } else {
        OtherListenerKeepsTarget(net, c, snap[i], newVal, lastVal, t);
        assert Internal(t) in snap[i + 1..] || net.cells[d.target].data == d.f(newVal) by {
          if Internal(t) in snap[i..] {
            var k :| i <= k < |snap| && snap[k] == Internal(t);
            assert snap[k] == snap[i + 1..][k - i - 1];
          }
        }
      }
      RunListenersDerive(net1, c, snap, i + 1, newVal, lastVal, t);
    }
  }

  /**
   * `computed(cb)` keeps its promise: while its callback is registered on the
   * source, setting the source to a new value leaves the computed cell at
   * `cb(value)`, whatever else listens.
   */
  lemma ComputedTracksSource(net: Net, x: nat, v: Value, t: nat)
    requires WF(net) && x < |net.cells| && v != net.cells[x].data
    requires t < |net.reactions| && net.reactions[t].Derive? && net.reactions[t].source == x
    requires Internal(t) in net.cells[x].events
    ensures var d := net.reactions[t];
      d.target < |net.cells| && SetData(net, x, v).cells[d.target].data == d.f(v)
  {
    var before := net.cells[x];
    assert before.events[0..] == before.events;
    RunListenersDerive(WithData(net, x, v), x, before.events, 0, v, before.data, t);
  }

  /**
   * `computed(cb)` returns a cell at `cb(data)` whose callback is registered
   * on the source, so `ComputedTracksSource` applies to it from then on.
   */
  lemma ComputedStartsInSync(net: Net, x: nat, f: Value -> Value)
    requires WF(net) && x < |net.cells|
    ensures var (r, y) := Computed(net, x, f); var t := |net.reactions|;
      && t < |r.reactions| && r.reactions[t] == Derive(x, y, f)
      && Internal(t) in r.cells[x].events
      && r.cells[y].data == f(r.cells[x].data)
  {
    var (r, y) := Computed(net, x, f);
    assert r.cells[x].events[|net.cells[x].events|] == Internal(|net.reactions|);
  }

  /** The handle of a `once` waiting on `c` is settled by its own callback only. */
  lemma OtherListenerKeepsSlot(net: Net, c: nat, l: Listener, newVal: Value, lastVal: Value, t: nat)
    requires WF(net) && c < |net.cells| && ListenerOk(net.reactions, c, l)
    requires t < |net.reactions| && net.reactions[t].Await? && net.reactions[t].owner == c
    requires l != Internal(t)
    ensures t in net.slots && Fire(net, c, l, newVal, lastVal).slots[t] == net.slots[t]
  {
    assert ReactionOk(net, t);
    FireFrame(net, c, l, newVal, lastVal);
    if Fire(net, c, l, newVal, lastVal).slots[t] != net.slots[t] {
      ReachIncreases(net.reactions, |net.cells|, c, c);
      assert false;
    }
  }

  lemma {:induction false} RunListenersAwait(net: Net, c: nat, snap: seq<Listener>, i: nat, newVal: Value, lastVal: Value, t: nat)
    requires WF(net) && c < |net.cells| && i <= |snap|
    requires forall l :: l in snap ==> ListenerOk(net.reactions, c, l)
    requires t < |net.reactions| && net.reactions[t].Await? && net.reactions[t].owner == c
    ensures var r := RunListeners(net, c, snap, i, newVal, lastVal); var fires := Internal(t) in snap[i..];
      && t in net.slots
      && r.slots[t] == (if net.slots[t].Some? then net.slots[t]
                        else if fires && Holds(net.reactions[t].cond, newVal) then Some(newVal)
                        else None)
      && (fires && Holds(net.reactions[t].cond, newVal) ==> Internal(t) !in r.cells[c].events)
    decreases |snap| - i
  {
    assert ReactionOk(net, t);
    if i < |snap| {
      var net1 := Fire(net, c, snap[i], newVal, lastVal);
      var r := RunListeners(net1, c, snap, i + 1, newVal, lastVal);
      RunListenersAwait(net1, c, snap, i + 1, newVal, lastVal, t);
      assert snap[i..] == [snap[i]] + snap[i + 1..];
      if snap[i] != Internal(t) {
        OtherListenerKeepsSlot(net, c, snap[i], newVal, lastVal, t);
      } else if Holds(net.reactions[t].cond, newVal) {
        assert Internal(t) !in net1.cells[c].events;
      }
    }
  }

  /**
   * `once` resolves on the first `setData` of a new value that meets its
   * condition, with that value, and its callback then unregisters itself; a
   * new value that does not meet it leaves the handle pending and the
   * callback in place. A settled handle never changes again.
   */
  lemma OnceResolution(net: Net, x: nat, v: Value, t: nat)
    requires WF(net) && x < |net.cells| && v != net.cells[x].data
    requires t < |net.reactions| && net.reactions[t].Await? && net.reactions[t].owner == x
    requires Internal(t) in net.cells[x].events
    ensures var r := SetData(net, x, v); var cond := net.reactions[t].cond;
      && t in net.slots
      && r.slots[t] == (if net.slots[t].Some? then net.slots[t] else if Holds(cond, v) then Some(v) else None)
      && (Holds(cond, v) <==> Internal(t) !in r.cells[x].events)
  {
    var before := net.cells[x];
    var net1 := WithData(net, x, v);
    assert before.events[0..] == before.events;
    RunListenersAwait(net1, x, before.events, 0, v, before.data, t);
    if !Holds(net.reactions[t].cond, v) {
      SetDataFrame(net, x, v);
      RunListenersKeepsUnsettled(net1, x, before.events, 0, v, before.data, t);
    }
  }

  /** While its condition fails, a `once` callback stays registered. */
  lemma {:induction false} RunListenersKeepsUnsettled(net: Net, c: nat, snap: seq<Listener>, i: nat, newVal: Value, lastVal: Value, t: nat)
    requires WF(net) && c < |net.cells| && i <= |snap|
    requires forall l :: l in snap ==> ListenerOk(net.reactions, c, l)
    requires t < |net.reactions| && net.reactions[t].Await? && net.reactions[t].owner == c
    requires !Holds(net.reactions[t].cond, newVal)
    requires Internal(t) in net.cells[c].events
    ensures Internal(t) in RunListeners(net, c, snap, i, newVal, lastVal).cells[c].events
    decreases |snap| - i
  {
    if i < |snap| {
      var net1 := Fire(net, c, snap[i], newVal, lastVal);
      FireKeepsUnsettled(net, c, snap[i], newVal, lastVal, t);
      RunListenersKeepsUnsettled(net1, c, snap, i + 1, newVal, lastVal, t);
    }
  }

  lemma FireKeepsUnsettled(net: Net, c: nat, l: Listener, newVal: Value, lastVal: Value, t: nat)
    requires WF(net) && c < |net.cells| && ListenerOk(net.reactions, c, l)
    requires t < |net.reactions| && net.reactions[t].Await? && net.reactions[t].owner == c
    requires !Holds(net.reactions[t].cond, newVal)
    requires Internal(t) in net.cells[c].events
    ensures Internal(t) in Fire(net, c, l, newVal, lastVal).cells[c].events
  {
    if l.Internal? {
      var rs := net.reactions;
      assert ReactionOk(net, l.token);
      match rs[l.token]
      case Derive(_, tg, f) =>
        SetDataFrame(net, tg, f(newVal));
        if Fire(net, c, l, newVal, lastVal).cells[c].events != net.cells[c].events {
          ReachIncreases(rs, |net.cells|, tg, c);
          assert false;
        }
      case Combine(ss, fn, _) =>
        SetAllFrame(net, c, l.token, fn(Current(net, ss)), 0);
        if Fire(net, c, l, newVal, lastVal).cells[c].events != net.cells[c].events {
          ReachIncreases(rs, |net.cells|, c, c);
          assert false;
        }
      case Await(o, cond) =>
        if Holds(cond, newVal) {
          assert Internal(t) in Without(net.cells[c].events, l);
        }
    }
  }

  /**
   * The cells of static `computed` reaction `t` hold what its callback
   * returns for the current source values (as far as both lists go).
   */
  ghost predicate Synced(net: Net, t: nat) {
    && t < |net.reactions| && net.reactions[t].Combine?
    && var Combine(ss, fn, os) := net.reactions[t];
    && (forall i :: 0 <= i < |ss| ==> ss[i] < |net.cells|)
    && (forall j :: 0 <= j < |os| ==> os[j] < |net.cells|)
    && var vals := fn(Current(net, ss));
    forall j :: 0 <= j < |vals| && j < |os| ==> net.cells[os[j]].data == vals[j]
  }

  /** Every source of static `computed` reaction `t` is a root cell. */
  ghost predicate RootSources(net: Net, t: nat) {
    && t < |net.reactions| && net.reactions[t].Combine?
    && forall i :: 0 <= i < |net.reactions[t].sources| ==>
         net.reactions[t].sources[i] < |net.cells| && net.cells[net.reactions[t].sources[i]].origin.None?
  }

  /** Setting one output of a static `computed` never reaches a sibling output. */
  lemma OutputsIndependent(net: Net, t: nat, k: nat, m: nat, v: Value)
    requires WF(net) && t < |net.reactions| && net.reactions[t].Combine?
    requires k < |net.reactions[t].outputs| && m < |net.reactions[t].outputs| && k != m
    ensures var os := net.reactions[t].outputs;
      os[k] < |net.cells| && os[m] < |net.cells|
      && SetData(net, os[k], v).cells[os[m]].data == net.cells[os[m]].data
  {
    var rs := net.reactions;
    var n := |net.cells|;
    var os := rs[t].outputs;
    assert ReactionOk(net, t);
    SetDataFrame(net, os[k], v);
    if SetData(net, os[k], v).cells[os[m]].data != net.cells[os[m]].data {
      ReachLastEdge(rs, n, os[k], os[m]);
      var t': nat, z: nat :| Edge(rs, t', z, os[m]) && (z == os[k] || Reach(rs, n, os[k], z));
      WriterUnique(net, t', os[m]);
      var i :| 0 <= i < |rs[t].sources| && rs[t].sources[i] == z;
      if z != os[k] {
        ReachIncreases(rs, n, os[k], z);
      }
      assert false;
    }
  }

  /** `SetAll` from slot `j` on: earlier outputs keep their values, the rest get theirs. */
  lemma {:induction false} SetAllOutputs(net: Net, c: nat, t: nat, vals: seq<Value>, j: nat)
    requires WF(net) && c < |net.cells| && t < |net.reactions|
    requires net.reactions[t].Combine? && Feeds(net.reactions[t], c)
    ensures var r := SetAll(net, c, t, vals, j); var os := net.reactions[t].outputs;
      && (forall m :: 0 <= m < |os| ==> os[m] < |net.cells|)
      && (forall m :: 0 <= m < j && m < |os| ==> r.cells[os[m]].data == net.cells[os[m]].data)
      && (forall k :: j <= k < |vals| && k < |os| ==> r.cells[os[k]].data == vals[k])
    decreases |vals| - j
  {
    var os := net.reactions[t].outputs;
    assert ReactionOk(net, t);
    if j < |vals| && j < |os| {
      var net1 := SetData(net, os[j], vals[j]);
      var r := SetAll(net1, c, t, vals, j + 1);
      assert r == SetAll(net, c, t, vals, j);
      SetDataFrame(net, os[j], vals[j]);
      SetAllOutputs(net1, c, t, vals, j + 1);
      forall m | 0 <= m < j && m < |os|
        ensures r.cells[os[m]].data == net.cells[os[m]].data
      {
        OutputsIndependent(net, t, j, m, vals[j]);
      }
      forall k | j <= k < |vals| && k < |os|
        ensures r.cells[os[k]].data == vals[k]
      {
        if k == j {
          assert net1.cells[os[j]].data == vals[j];
        }
      }
    }
  }

  /** A listener's call changes no root cell. */
  lemma FireKeepsRoots(net: Net, c: nat, l: Listener, newVal: Value, lastVal: Value, y: nat)
    requires WF(net) && c < |net.cells| && ListenerOk(net.reactions, c, l)
    requires y < |net.cells| && net.cells[y].origin.None?
    ensures Fire(net, c, l, newVal, lastVal).cells[y].data == net.cells[y].data
  {
    FireFrame(net, c, l, newVal, lastVal);
    if Fire(net, c, l, newVal, lastVal).cells[y].data != net.cells[y].data {
      FromTokenDerived(net, l.token, c, y);
    }
  }

  /** Any listener other than the shared callback of `t` leaves `t`'s cells alone, when its sources are roots. */
  lemma OtherListenerKeepsOutputs(net: Net, c: nat, l: Listener, newVal: Value, lastVal: Value, t: nat, m: nat)
    requires WF(net) && c < |net.cells| && ListenerOk(net.reactions, c, l)
    requires RootSources(net, t) && l != Internal(t) && m < |net.reactions[t].outputs|
    ensures var y := net.reactions[t].outputs[m];
      y < |net.cells| && Fire(net, c, l, newVal, lastVal).cells[y].data == net.cells[y].data
  {
    var rs := net.reactions;
    var n := |net.cells|;
    var y := rs[t].outputs[m];
    assert ReactionOk(net, t);
    FireFrame(net, c, l, newVal, lastVal);
    if Fire(net, c, l, newVal, lastVal).cells[y].data != net.cells[y].data {
      var w: nat :| Writes(rs[l.token], w) && c < w < n && (w == y || Reach(rs, n, w, y));
      if w == y {
        WriterUnique(net, l.token, y);
        assert false;
      } else {
        ReachLastEdge(rs, n, w, y);
        var t': nat, z: nat :| Edge(rs, t', z, y) && (z == w || Reach(rs, n, w, z));
        WriterUnique(net, t', y);
        var i :| 0 <= i < |rs[t].sources| && rs[t].sources[i] == z;
        if z == w {
          WriterUnique(net, l.token, w);
        } else {
          ReachDerived(net, w, z);
        }
        assert false;
      }
    }
  }

  lemma {:induction false} RunListenersCombine(net: Net, c: nat, snap: seq<Listener>, i: nat, newVal: Value, lastVal: Value, t: nat)
    requires WF(net) && c < |net.cells| && i <= |snap|
    requires forall l :: l in snap ==> ListenerOk(net.reactions, c, l)
    requires RootSources(net, t)
    requires Internal(t) in snap[i..] || Synced(net, t)
    ensures var r := RunListeners(net, c, snap, i, newVal, lastVal); var ss := net.reactions[t].sources;
      && Synced(r, t)
      && (forall k :: 0 <= k < |ss| ==> r.cells[ss[k]].data == net.cells[ss[k]].data)
    decreases |snap| - i
  {
    var rs := net.reactions;
    var ss := rs[t].sources;
    var os := rs[t].outputs;
    assert ReactionOk(net, t);
    if i < |snap| {
      var net1 := Fire(net, c, snap[i], newVal, lastVal);
      forall k | 0 <= k < |ss|
        ensures net1.cells[ss[k]].data == net.cells[ss[k]].data
      {
        FireKeepsRoots(net, c, snap[i], newVal, lastVal, ss[k]);
      }
      assert Current(net1, ss) == Current(net, ss);
      if snap[i] == Internal(t) {
        SetAllOutputs(net, c, t, rs[t].fn(Current(net, ss)), 0);
      } else {
        forall m | 0 <= m < |os|
          ensures net1.cells[os[m]].data == net.cells[os[m]].data
        {
          OtherListenerKeepsOutputs(net, c, snap[i], newVal, lastVal, t, m);
        }
        assert Internal(t) in snap[i + 1..] || Synced(net1, t) by {
          if Internal(t) in snap[i..] {
            var k :| i <= k < |snap| && snap[k] == Internal(t);
            assert snap[k] == snap[i + 1..][k - i - 1];
          }
        }
      }
      RunListenersCombine(net1, c, snap, i + 1, newVal, lastVal, t);
    }
  }

  /**
   * Static `Watcher.computed` keeps its promise when its sources are plain
   * watchers: after a source is set to a new value, every returned cell
   * holds the callback's result for the sources' current values, and no
   * other source moved.
   */
  lemma StaticComputedTracksSources(net: Net, x: nat, v: Value, t: nat)
    requires WF(net) && x < |net.cells| && v != net.cells[x].data
    requires RootSources(net, t) && Internal(t) in net.cells[x].events
    ensures var r := SetData(net, x, v); var ss := net.reactions[t].sources;
      && Synced(r, t)
      && (forall k :: 0 <= k < |ss| ==> r.cells[ss[k]].data == if ss[k] == x then v else net.cells[ss[k]].data)
  {
    var before := net.cells[x];
    var net1 := WithData(net, x, v);
    assert before.events[0..] == before.events;
    assert WF(net);
    assert ListenerOk(net.reactions, x, Internal(t));
    RunListenersCombine(net1, x, before.events, 0, v, before.data, t);
  }

  /** Static `Watcher.computed` returns cells that start out holding the callback's result. */
  lemma StaticComputedStartsInSync(net: Net, ss: seq<nat>, fn: seq<Value> -> seq<Value>)
    requires WF(net) && forall i :: 0 <= i < |ss| ==> ss[i] < |net.cells|
    ensures Synced(StaticComputed(net, ss, fn).0, |net.reactions|)
  {
    var (r, os) := StaticComputed(net, ss, fn);
    assert Current(r, ss) == Current(net, ss);
  }

  /** A network with no watchers yet. */
  function Empty(): (r: Net)
    ensures WF(r) && r.cells == [] && r.log == []
  {
    Net([], [], map[], [])
  }

  /**
   * The "watch data" scenario: a watcher at 0 with one callback, set to 2,
   * 2, 10, 10, ends at 10, and the callback saw `(2, 0)` then `(10, 2)`.
   */
  lemma WatchDataScenario()
    ensures var (n0, w) := Create(Empty(), Num(0));
      var n1 := Observe(n0, w, 7, false);
      var n2 := SetData(n1, w, Num(2));
      var n3 := SetData(n2, w, Num(2));
      var n4 := SetData(n3, w, Num(10));
      var n5 := SetData(n4, w, Num(10));
      && n5.cells[w].data == Num(10)
      && n5.log == [Entry(7, [Num(2), Num(0)]), Entry(7, [Num(10), Num(2)])]
  {
    var (n0, w) := Create(Empty(), Num(0));
    var n1 := Observe(n0, w, 7, false);
    assert n1.cells[w].events == [User(7)];
    SetDataNotifiesUsers(n1, w, Num(2));
    var n2 := SetData(n1, w, Num(2));
    assert n2.cells[w] == Cell(Num(2), [User(7)], None);
    SetDataNotifiesUsers(n2, w, Num(2));
    var n3 := SetData(n2, w, Num(2));
    SetDataNotifiesUsers(n3, w, Num(10));
    var n4 := SetData(n3, w, Num(10));
    assert n4.cells[w] == Cell(Num(10), [User(7)], None);
    SetDataNotifiesUsers(n4, w, Num(10));
  }

  /**
   * After `unObserve(cb)` on a watcher with only user callbacks, the next
   * `setData` calls every other callback and never `cb`.
   */
  lemma UnObservedUserNotCalled(net: Net, x: nat, id: nat, v: Value)
    requires WF(net) && x < |net.cells| && v != net.cells[x].data
    requires forall k :: 0 <= k < |net.cells[x].events| ==> net.cells[x].events[k].User?
    ensures var n1 := UnObserve(net, x, Some(id)); var r := SetData(n1, x, v);
      && |n1.log| <= |r.log|
      && (forall k :: |n1.log| <= k < |r.log| ==> r.log[k].listener != id)
      && (forall k :: 0 <= k < |net.cells[x].events| && net.cells[x].events[k] != User(id) ==>
            exists e :: e in r.log[|n1.log|..] && e.listener == net.cells[x].events[k].id)
  {
    var n1 := UnObserve(net, x, Some(id));
    var events := n1.cells[x].events;
    forall k | 0 <= k < |events|
      ensures events[k].User?
    {
      assert events[k] in net.cells[x].events;
    }
    SetDataNotifiesUsers(n1, x, v);
    var r := SetData(n1, x, v);
    var added := UserEntries(Subscriber.Notify(events, v, n1.cells[x].data));
    assert r.log[|n1.log|..] == added;
    forall k | 0 <= k < |net.cells[x].events| && net.cells[x].events[k] != User(id)
      ensures exists e :: e in r.log[|n1.log|..] && e.listener == net.cells[x].events[k].id
    {
      var l := net.cells[x].events[k];
      assert l in events;
      var i :| 0 <= i < |events| && events[i] == l;
      assert added[i].listener == l.id;
    }
  }
}
