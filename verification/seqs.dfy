/** Sequence helpers shared by the listener lists and the channel stacks. */
module Seqs {

  /** `s.filter((item) => item !== v)`: every occurrence of `v` dropped, the rest in order. */
  function Without<T(==)>(s: seq<T>, v: T): (r: seq<T>)
    ensures v !in r
    ensures forall i :: 0 <= i < |r| ==> r[i] in s
    ensures forall i :: 0 <= i < |s| && s[i] != v ==> s[i] in r
    ensures |r| <= |s|
    ensures v !in s ==> r == s
  {
    if s == [] then []
    else (if s[0] == v then [] else [s[0]]) + Without(s[1..], v)
  }

  /** Filtering distributes over concatenation, so the kept items keep their order. */
  lemma {:induction false} WithoutAppend<T>(a: seq<T>, b: seq<T>, v: T)
    ensures Without(a + b, v) == Without(a, v) + Without(b, v)
    decreases |a|
  {
    if a != [] {
      assert (a + b)[0] == a[0] && (a + b)[1..] == a[1..] + b;
      WithoutAppend(a[1..], b, v);
      var head := if a[0] == v then [] else [a[0]];
      assert Without(a + b, v) == head + (Without(a[1..], v) + Without(b, v));
      AppendAssoc(head, Without(a[1..], v), Without(b, v));
    } else {
      assert a + b == b;
    }
  }

  /** Filtering a sequence of copies of `v` by `v` leaves nothing. */
  lemma {:induction false} WithoutOnly<T>(s: seq<T>, v: T)
    requires forall i :: 0 <= i < |s| ==> s[i] == v
    ensures Without(s, v) == []
    decreases |s|
  {
    if s != [] {
      WithoutOnly(s[1..], v);
    }
  }

  /** Filtering twice by the same value is filtering once. */
  lemma WithoutIdempotent<T>(s: seq<T>, v: T)
    ensures Without(Without(s, v), v) == Without(s, v)
  {
  }

  /** No item occurs twice. */
  predicate Distinct<T(==)>(s: seq<T>) {
    forall i, j :: 0 <= i < j < |s| ==> s[i] != s[j]
  }

  /** The number of occurrences of `v` in `s`. */
  function Count<T(==)>(s: seq<T>, v: T): nat {
    if s == [] then 0 else (if s[0] == v then 1 else 0) + Count(s[1..], v)
  }

  /** Filtering by `v` keeps every other value's occurrences and none of `v`'s. */
  lemma {:induction false} WithoutCount<T>(s: seq<T>, v: T, u: T)
    ensures Count(Without(s, v), u) == if u == v then 0 else Count(s, u)
    decreases |s|
  {
    if s != [] {
      WithoutCount(s[1..], v, u);
      var head := if s[0] == v then [] else [s[0]];
      CountAppend(head, Without(s[1..], v), u);
    }
  }

  lemma {:induction false} CountAppend<T>(a: seq<T>, b: seq<T>, u: T)
    ensures Count(a + b, u) == Count(a, u) + Count(b, u)
    decreases |a|
  {
    if a != [] {
      assert (a + b)[0] == a[0] && (a + b)[1..] == a[1..] + b;
      CountAppend(a[1..], b, u);
    } else {
      assert a + b == b;
    }
  }

  function Reverse<T>(s: seq<T>): (r: seq<T>)
    ensures |r| == |s|
    ensures forall i :: 0 <= i < |s| ==> r[i] == s[|s| - 1 - i]
  {
    if s == [] then [] else [s[|s| - 1]] + Reverse(s[..|s| - 1])
  }

  lemma {:induction false} CountAbsent<T>(s: seq<T>, v: T)
    requires v !in s
    ensures Count(s, v) == 0
    decreases |s|
  {
    if s != [] {
      assert v !in s[1..];
      CountAbsent(s[1..], v);
    }
  }

  /** A sequence that extends `p` by copies of `v` only has as many more `v`s as it is longer. */
  lemma {:induction false} CountPrefix<T>(s: seq<T>, p: seq<T>, v: T)
    requires |p| <= |s| && s[..|p|] == p
    requires forall k :: |p| <= k < |s| ==> s[k] == v
    ensures Count(s, v) == Count(p, v) + (|s| - |p|)
    decreases |s|
  {
    if |s| > |p| {
      var s' := s[..|s| - 1];
      assert s == s' + [v];
      CountAppend(s', [v], v);
      CountPrefix(s', p, v);
    } else {
      assert s == p;
    }
  }

  /** A non-empty sequence is its prefix followed by its last item. */
  lemma InitLast<T>(s: seq<T>)
    requires s != []
    ensures s == s[..|s| - 1] + [s[|s| - 1]]
  {
  }

  lemma AppendAssoc<T>(a: seq<T>, b: seq<T>, c: seq<T>)
    ensures a + (b + c) == (a + b) + c
  {
  }

  /** A non-empty prefix is the shorter prefix followed by its last item. */
  lemma TakeSnoc<T>(s: seq<T>, n: nat)
    requires 0 < n <= |s|
    ensures s[..n] == s[..n - 1] + [s[n - 1]]
  {
  }
}
