/**
 * The tree-shaped helpers of `packages/utils/src/object.ts`: `isEmpty`,
 * `isEqual`, `checkCircularStructure`, `clone`, `copyProperties` and `omit`.
 * Values are JSON-like trees; an object is its own enumerable properties in
 * `Object.keys` order. Trees share no nodes, so structural equality stands
 * for the identity `===` that `checkCircularStructure` compares parents with.
 */
module Objects {

  import opened Wrappers
  import opened JsValue
  import Seqs

  datatype Json =
    | Base(p: Prim)
    | Arr(items: seq<Json>)
    | Obj(fields: seq<(Key, Json)>)

  /** A property name. */
  datatype Key = Key(name: string)

  const Undef: Json := Base(Undefined)

  function KeysOf(fs: seq<(Key, Json)>): (ks: seq<Key>)
    ensures |ks| == |fs|
    ensures forall i :: 0 <= i < |fs| ==> ks[i] == fs[i].0
  {
    seq(|fs|, i requires 0 <= i < |fs| => fs[i].0)
  }

  /** `obj[key]` on a plain object: the value of `key`, `undefined` when absent. */
  function Get(fs: seq<(Key, Json)>, key: Key): (v: Json)
    ensures key !in KeysOf(fs) ==> v == Undef
    ensures Seqs.Distinct(KeysOf(fs)) ==> forall i :: 0 <= i < |fs| && fs[i].0 == key ==> v == fs[i].1
  {
    if fs == [] then Undef
    else if fs[0].0 == key then fs[0].1
    else
      var v := Get(fs[1..], key);
      assert KeysOf(fs[1..]) == KeysOf(fs)[1..];
      v
  }

  /** With distinct keys, looking up the key at position `i` finds the value at `i`. */
  lemma {:induction false} GetAt(fs: seq<(Key, Json)>, i: nat)
    requires i < |fs| && Seqs.Distinct(KeysOf(fs))
    ensures Get(fs, fs[i].0) == fs[i].1
    decreases i
  {
    if i > 0 {
      assert KeysOf(fs[1..]) == KeysOf(fs)[1..];
      assert fs[1..][i - 1] == fs[i];
      GetAt(fs[1..], i - 1);
    }
  }

  /** A JavaScript object never has a key twice: every object node has distinct keys. */
  ghost predicate WellKeyed(j: Json) {
    match j
    case Base(_) => true
    case Arr(xs) => forall i :: 0 <= i < |xs| ==> WellKeyed(xs[i])
    case Obj(fs) => Seqs.Distinct(KeysOf(fs)) && forall i :: 0 <= i < |fs| ==> WellKeyed(fs[i].1)
  }

  /** `hasOwn(obj, key)`: array indices are the decimal texts of `0 .. length - 1`. */
  predicate HasOwn(j: Json, key: Key) {
    match j
    case Base(_) => false
    case Arr(xs) => exists i :: 0 <= i < |xs| && Key(NatToDecimal(i)) == key
    case Obj(fs) => key in KeysOf(fs)
  }

  /** `Object.keys(obj)`. */
  function OwnKeys(j: Json): seq<Key> {
    match j
    case Base(_) => []
    case Arr(xs) => seq(|xs|, i requires 0 <= i < |xs| => Key(NatToDecimal(i)))
    case Obj(fs) => KeysOf(fs)
  }

  /** `isEmpty(obj)`, for an object or an array. */
  function IsEmpty(j: Json): (r: bool)
    requires !j.Base?
    ensures r <==> forall key :: !HasOwn(j, key)
  {
    if j.Arr? && |j.items| > 0 then
      assert HasOwn(j, Key(NatToDecimal(0)));
      false
    else if j.Obj? && |j.fields| > 0 then
      assert HasOwn(j, j.fields[0].0);
      false
    else
      |OwnKeys(j)| == 0
  }

  /**
   * `isEqual(from, to)` with `deepCheck` off and no custom `isEqual` method:
   * base values by `===`; arrays of the same length element-wise; objects
   * with the same key set value-wise. A base element is compared by `===`,
   * which is what the recursive call does for a base value too.
   */
  function Equal(from: Json, to: Json): bool {
    match from
    case Base(p) => to == Base(p)
    case Arr(xs) =>
      to.Arr? && |xs| == |to.items| &&
      forall i :: 0 <= i < |xs| ==> Equal(xs[i], to.items[i])
    case Obj(fs) =>
      to.Obj? &&
      (forall i :: 0 <= i < |fs| ==> fs[i].0 in KeysOf(to.fields)) &&
      (forall i :: 0 <= i < |to.fields| ==> to.fields[i].0 in KeysOf(fs)) &&
      forall i :: 0 <= i < |fs| ==> Equal(fs[i].1, Get(to.fields, fs[i].0))
  }

  /** `isEqual(from, to, deepCheck)`: a circular `from` throws when `deepCheck` is set. */
  function IsEqual(from: Json, to: Json, deepCheck: bool): (r: Result<bool>)
    ensures r == Ok(Equal(from, to))
  {
    NoCircleInTrees(from);
    if from.Base? then Ok(from == to)
    else if deepCheck && CheckCircular(from, []) then Throws("(isEqual) Can not have circular structure.")
    else
      Ok(Equal(from, to))
  }

  lemma {:induction false} EqualReflexive(j: Json)
    requires WellKeyed(j)
    ensures Equal(j, j)
  {
    match j
    case Base(_) =>
    case Arr(xs) =>
      forall i | 0 <= i < |xs|
        ensures Equal(xs[i], xs[i])
      {
        EqualReflexive(xs[i]);
      }
    case Obj(fs) =>
      forall i | 0 <= i < |fs|
        ensures Equal(fs[i].1, Get(fs, fs[i].0))
      {
        EqualReflexive(fs[i].1);
      }
  }

  /** `isEqual` is symmetric on trees. */
  lemma EqualSymmetric(a: Json, b: Json)
    requires WellKeyed(a) && WellKeyed(b)
    ensures Equal(a, b) <==> Equal(b, a)
  {
    if Equal(a, b) {
      EqualFlip(a, b);
    }
    if Equal(b, a) {
      EqualFlip(b, a);
    }
  }

  lemma {:induction false} EqualFlip(a: Json, b: Json)
    requires WellKeyed(a) && WellKeyed(b) && Equal(a, b)
    ensures Equal(b, a)
    decreases a
  {
    match a
    case Base(_) =>
    case Arr(xs) =>
      forall i | 0 <= i < |xs|
        ensures Equal(b.items[i], xs[i])
      {
        EqualFlip(xs[i], b.items[i]);
      }
    case Obj(fs) =>
      var gs := b.fields;
      forall j | 0 <= j < |gs|
        ensures Equal(gs[j].1, Get(fs, gs[j].0))
      {
        var k := gs[j].0;
        var i :| 0 <= i < |fs| && KeysOf(fs)[i] == k;
        assert Get(gs, k) == gs[j].1;
        assert Get(fs, k) == fs[i].1;
        EqualFlip(fs[i].1, gs[j].1);
      }
  }

  /**
   * Key order does not matter to `isEqual`: an object equals any object
   * with the same key set whose lookups agree with its own.
   */
  lemma EqualIgnoresKeyOrder(fs: seq<(Key, Json)>, gs: seq<(Key, Json)>)
    requires WellKeyed(Obj(fs))
    requires forall k :: k in KeysOf(fs) <==> k in KeysOf(gs)
    requires forall k :: k in KeysOf(fs) ==> Get(gs, k) == Get(fs, k)
    ensures Equal(Obj(fs), Obj(gs))
  {
    forall i | 0 <= i < |fs|
      ensures Equal(fs[i].1, Get(gs, fs[i].0))
    {
      assert KeysOf(fs)[i] == fs[i].0;
      GetAt(fs, i);
      EqualReflexive(fs[i].1);
    }
  }

  /** The number of nodes of a tree. */
  function Size(j: Json): (n: nat)
    ensures n >= 1
  {
    match j
    case Base(_) => 1
    case Arr(xs) => 1 + Sum(seq(|xs|, i requires 0 <= i < |xs| => Size(xs[i])))
    case Obj(fs) => 1 + Sum(seq(|fs|, i requires 0 <= i < |fs| => Size(fs[i].1)))
  }

  function Sum(s: seq<nat>): nat {
    if s == [] then 0 else s[0] + Sum(s[1..])
  }

  lemma {:induction false} SumBounds(s: seq<nat>, i: nat)
    requires i < |s|
    ensures s[i] <= Sum(s)
    decreases |s|
  {
    if i > 0 {
      SumBounds(s[1..], i - 1);
    }
  }

  /** A child is smaller than its parent. */
  lemma ChildSize(j: Json, i: nat)
    requires j.Arr? ==> i < |j.items|
    requires j.Obj? ==> i < |j.fields|
    requires !j.Base?
    ensures j.Arr? ==> Size(j.items[i]) < Size(j)
    ensures j.Obj? ==> Size(j.fields[i].1) < Size(j)
  {
    match j
    case Arr(xs) =>
      SumBounds(seq(|xs|, k requires 0 <= k < |xs| => Size(xs[k])), i);
    case Obj(fs) =>
      SumBounds(seq(|fs|, k requires 0 <= k < |fs| => Size(fs[k].1)), i);
  }

  /**
   * `checkCircularStructure(data, parents)`: `data` is one of its ancestors,
   * or some non-base child is circular with `data` added to the ancestors.
   */
  function CheckCircular(data: Json, parents: seq<Json>): bool {
    if data in parents then true
    else
      var ps := parents + [data];
      match data
      case Base(_) => false
      case Arr(xs) => exists i :: 0 <= i < |xs| && !xs[i].Base? && CheckCircular(xs[i], ps)
      case Obj(fs) => exists i :: 0 <= i < |fs| && !fs[i].1.Base? && CheckCircular(fs[i].1, ps)
  }

  /**
   * No node of a tree is one of its own ancestors, so a tree is never
   * reported circular when the given parents all lie strictly above it.
   */
  lemma {:induction false} NoCircleBelow(data: Json, parents: seq<Json>)
    requires forall k :: 0 <= k < |parents| ==> Size(data) < Size(parents[k])
    ensures !CheckCircular(data, parents)
    decreases data
  {
    var ps := parents + [data];
    match data
    case Base(_) =>
    case Arr(xs) =>
      forall i | 0 <= i < |xs|
        ensures !CheckCircular(xs[i], ps)
      {
        ChildSize(data, i);
        NoCircleBelow(xs[i], ps);
      }
    case Obj(fs) =>
      forall i | 0 <= i < |fs|
        ensures !CheckCircular(fs[i].1, ps)
      {
        ChildSize(data, i);
        NoCircleBelow(fs[i].1, ps);
      }
  }

  /** `checkCircularStructure(data)` is false on every tree. */
  lemma NoCircleInTrees(data: Json)
    ensures !CheckCircular(data, [])
  {
    NoCircleBelow(data, []);
  }

  /** `clone(data, false)`: base values as they are, arrays and plain objects copied node by node. */
  function Copy(data: Json): (r: Json)
    ensures r == data
  {
    match data
    case Base(_) => data
    case Arr(xs) =>
      var ys := seq(|xs|, i requires 0 <= i < |xs| => Copy(xs[i]));
      assert ys == xs;
      Arr(ys)
    case Obj(fs) =>
      var gs := seq(|fs|, i requires 0 <= i < |fs| => (fs[i].0, Copy(fs[i].1)));
      assert gs == fs;
      Obj(gs)
  }

  /** `clone(data, check)`: the copy, or the error for a circular structure when `check` is set. */
  function Clone(data: Json, check: bool): (r: Result<Json>)
    ensures r == Ok(data)
  {
    NoCircleInTrees(data);
    if data.Base? then Ok(data)
    else if check && CheckCircular(data, []) then Throws("Can not clone circular structure.")
    else Ok(Copy(data))
  }

  /** A clone is `isEqual` to the original. */
  lemma CloneIsEqual(data: Json, check: bool)
    requires WellKeyed(data)
    ensures Clone(data, check).Ok? && Equal(Clone(data, check).value, data)
  {
    EqualReflexive(data);
  }

  /** The position of `key` among the keys, or the length when it is absent. */
  function Find(fs: seq<(Key, Json)>, key: Key): (i: nat)
    ensures i <= |fs|
    ensures i < |fs| ==> fs[i].0 == key
    ensures forall j :: 0 <= j < i ==> fs[j].0 != key
  {
    if fs == [] || fs[0].0 == key then 0 else 1 + Find(fs[1..], key)
  }

  /** `obj[key] = value` on a plain object: overwrite in place, or append a new key. */
  function Set(fs: seq<(Key, Json)>, key: Key, v: Json): (r: seq<(Key, Json)>)
    ensures key in KeysOf(r)
    ensures forall k :: k in KeysOf(r) <==> k in KeysOf(fs) || k == key
    ensures key !in KeysOf(fs) ==> r == fs + [(key, v)]
    ensures Seqs.Distinct(KeysOf(fs)) ==> Seqs.Distinct(KeysOf(r)) && Get(r, key) == v
    ensures Seqs.Distinct(KeysOf(fs)) ==> forall k :: k != key ==> Get(r, k) == Get(fs, k)
  {
    var i := Find(fs, key);
    if i < |fs| then
      var r := fs[i := (key, v)];
      assert KeysOf(r) == KeysOf(fs);
      r
    else
      var r := fs + [(key, v)];
      assert KeysOf(r) == KeysOf(fs) + [key];
      r
  }

  /** `copyProperties(from, keys)`: a new object holding `from[key]` under each listed key. */
  function CopyProperties(from: seq<(Key, Json)>, keys: seq<Key>): (r: seq<(Key, Json)>)
    ensures Seqs.Distinct(KeysOf(r))
    ensures forall k :: k in KeysOf(r) <==> k in keys
    ensures forall k :: k in keys ==> Get(r, k) == Get(from, k)
    decreases |keys|
  {
    if keys == [] then []
    else
      var init := keys[..|keys| - 1];
      var last := keys[|keys| - 1];
      var prev := CopyProperties(from, init);
      var r := Set(prev, last, Get(from, last));
      Seqs.InitLast(keys);
      r
  }

  /** `omit(from, keys)`: the entries of `from` whose key is not listed, in order. */
  function Omit(from: seq<(Key, Json)>, keys: seq<Key>): (r: seq<(Key, Json)>)
    ensures forall k :: k in KeysOf(r) <==> k in KeysOf(from) && k !in keys
    ensures Seqs.Distinct(KeysOf(from)) ==> Seqs.Distinct(KeysOf(r))
    ensures Seqs.Distinct(KeysOf(from)) ==> forall k :: k in KeysOf(r) ==> Get(r, k) == Get(from, k)
  {
    if from == [] then []
    else
      var rest := Omit(from[1..], keys);
      assert KeysOf(from[1..]) == KeysOf(from)[1..];
      if from[0].0 in keys then rest
      else
        assert KeysOf([from[0]] + rest) == [from[0].0] + KeysOf(rest);
        [from[0]] + rest
  }

  /** Every key of an object lands in exactly one of `omit(o, keys)` and `copyProperties(o, keys)`, with its value. */
  lemma OmitCopyPartition(from: seq<(Key, Json)>, keys: seq<Key>, k: Key)
    requires Seqs.Distinct(KeysOf(from))
    requires k in KeysOf(from)
    ensures k in keys ==> Get(CopyProperties(from, keys), k) == Get(from, k) && k !in KeysOf(Omit(from, keys))
    ensures k !in keys ==> Get(Omit(from, keys), k) == Get(from, k) && k !in KeysOf(CopyProperties(from, keys))
  {
  }

  /**
   * `omit` keeps the order of the entries: it decides entry by entry, so it
   * distributes over concatenation, and a single entry is kept exactly when
   * its key is not listed.
   */
  lemma OmitInOrder(a: seq<(Key, Json)>, b: seq<(Key, Json)>, keys: seq<Key>)
    ensures Omit(a + b, keys) == Omit(a, keys) + Omit(b, keys)
    ensures |a| == 1 ==> Omit(a, keys) == if a[0].0 in keys then [] else a
  {
    OmitAppend(a, b, keys);
    if |a| == 1 {
      assert a == [a[0]] + [];
      OmitCons(a[0], [], keys);
    }
  }

  lemma {:induction false} OmitAppend(a: seq<(Key, Json)>, b: seq<(Key, Json)>, keys: seq<Key>)
    ensures Omit(a + b, keys) == Omit(a, keys) + Omit(b, keys)
    decreases |a|
  {
    if a == [] {
      assert a + b == b;
    } else {
      var x := a[0];
      var head := if x.0 in keys then [] else [x];
      calc {
        Omit(a + b, keys);
        { assert a + b == [x] + (a[1..] + b); OmitCons(x, a[1..] + b, keys); }
        head + Omit(a[1..] + b, keys);
        { OmitAppend(a[1..], b, keys); }
        head + (Omit(a[1..], keys) + Omit(b, keys));
        (head + Omit(a[1..], keys)) + Omit(b, keys);
        { assert a == [x] + a[1..]; OmitCons(x, a[1..], keys); }
        Omit(a, keys) + Omit(b, keys);
      }
    }
  }

  lemma OmitCons(x: (Key, Json), rest: seq<(Key, Json)>, keys: seq<Key>)
    ensures Omit([x] + rest, keys) == (if x.0 in keys then [] else [x]) + Omit(rest, keys)
  {
    assert ([x] + rest)[1..] == rest;
  }

  /** Omitting nothing gives the object back. */
  lemma {:induction false} OmitNothing(from: seq<(Key, Json)>)
    ensures Omit(from, []) == from
    decreases |from|
  {
    if from != [] {
      OmitNothing(from[1..]);
    }
  }

  /** Copying all keys of an object, in its own order, gives the object back. */
  lemma CopyAllProperties(from: seq<(Key, Json)>)
    requires Seqs.Distinct(KeysOf(from))
    ensures CopyProperties(from, KeysOf(from)) == from
  {
    CopyPrefix(from, |from|);
    assert KeysOf(from)[..|from|] == KeysOf(from);
  }

  lemma {:induction false} CopyPrefix(from: seq<(Key, Json)>, n: nat)
    requires Seqs.Distinct(KeysOf(from)) && n <= |from|
    ensures CopyProperties(from, KeysOf(from)[..n]) == from[..n]
    decreases n
  {
    if n > 0 {
      var ks := KeysOf(from)[..n - 1];
      var last := from[n - 1].0;
      assert KeysOf(from)[..n] == ks + [last];
      CopyUnfold(from, ks, last);
      CopyPrefix(from, n - 1);
      LastKeyFresh(from, n);
      GetAt(from, n - 1);
      assert CopyProperties(from, ks) == from[..n - 1];
      assert Set(from[..n - 1], last, from[n - 1].1) == from[..n - 1] + [(last, from[n - 1].1)];
      assert (last, from[n - 1].1) == from[n - 1];
      Seqs.TakeSnoc(from, n);
    }
  }

  lemma CopyUnfold(from: seq<(Key, Json)>, keys: seq<Key>, last: Key)
    ensures CopyProperties(from, keys + [last]) == Set(CopyProperties(from, keys), last, Get(from, last))
  {
    assert (keys + [last])[..|keys|] == keys;
  }

  /** In an object with distinct keys, the key at position `n - 1` does not occur before it. */
  lemma LastKeyFresh(from: seq<(Key, Json)>, n: nat)
    requires Seqs.Distinct(KeysOf(from)) && 0 < n <= |from|
    ensures from[n - 1].0 !in KeysOf(from[..n - 1])
  {
    var pre := KeysOf(from[..n - 1]);
    forall j | 0 <= j < |pre|
      ensures pre[j] != from[n - 1].0
    {
      assert pre[j] == KeysOf(from)[j];
    }
  }
}
