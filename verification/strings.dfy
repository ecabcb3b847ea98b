/**
 * The string normalisers of `src/string.ts` and `src/shared/string.ts`:
 * `stringifyClass`, `hyphenate` and `toCamelCase`. Case mapping covers the
 * ASCII letters only.
 */
module Strings {

  import opened Wrappers
  import opened JsValue
  import opened Text
  import Seqs

  /**
   * One argument of `stringifyClass`: a class string, an object whose keys
   * are listed in `Object.keys` order with their values, or anything else
   * (`undefined`), which contributes nothing.
   */
  datatype ClassArg = Skipped | Name(s: string) | Flags(entries: seq<(string, Value)>)

  /** `parseClassObject`: the keys whose value is truthy, in key order. */
  function TruthyKeys(entries: seq<(string, Value)>): (r: seq<string>)
    ensures |r| <= |entries|
    ensures forall i :: 0 <= i < |r| ==> KeptKey(entries, r[i])
    ensures forall j :: 0 <= j < |entries| && Truthy(entries[j].1) ==> entries[j].0 in r
  {
    if entries == [] then []
    else
      var rest := TruthyKeys(entries[1..]);
      var here := if Truthy(entries[0].1) then [entries[0].0] else [];
      TruthyKeysStep(entries, here, rest);
      here + rest
  }

  /** The positions from `k` on of the entries whose value is truthy, in increasing order. */
  function TruthyIndices(entries: seq<(string, Value)>, k: nat): (idx: seq<nat>)
    requires k <= |entries|
    ensures forall i :: 0 <= i < |idx| ==> k <= idx[i] < |entries| && Truthy(entries[idx[i]].1)
    ensures forall i, j :: 0 <= i < j < |idx| ==> idx[i] < idx[j]
    ensures forall j :: k <= j < |entries| && Truthy(entries[j].1) ==> j in idx
    decreases |entries| - k
  {
    if k == |entries| then []
    else (if Truthy(entries[k].1) then [k] else []) + TruthyIndices(entries, k + 1)
  }

  /**
   * `parseClassObject` keeps exactly the truthy entries' keys, in entry
   * order and with their multiplicity: its i-th key is the key of the i-th
   * truthy entry.
   */
  lemma TruthyKeysInOrder(entries: seq<(string, Value)>)
    ensures |TruthyKeys(entries)| == |TruthyIndices(entries, 0)|
    ensures forall i :: 0 <= i < |TruthyKeys(entries)| ==>
      TruthyKeys(entries)[i] == entries[TruthyIndices(entries, 0)[i]].0
  {
    TruthyKeysFrom(entries, 0);
    assert entries[0..] == entries;
  }

  lemma {:induction false} TruthyKeysFrom(entries: seq<(string, Value)>, k: nat)
    requires k <= |entries|
    ensures KeysAt(TruthyKeys(entries[k..]), TruthyIndices(entries, k), entries)
    decreases |entries| - k
  {
    if k < |entries| {
      TruthyKeysFrom(entries, k + 1);
      var e := entries[k..];
      assert e[1..] == entries[k + 1..];
      var rest := TruthyKeys(entries[k + 1..]);
      var idx := TruthyIndices(entries, k + 1);
      if Truthy(entries[k].1) {
        assert TruthyKeys(e) == [entries[k].0] + rest;
        assert TruthyIndices(entries, k) == [k] + idx;
        KeysAtCons(rest, idx, entries, k);
      } else {
        assert TruthyKeys(e) == rest;
        assert TruthyIndices(entries, k) == idx;
      }
    }
  }

  /** `ks[i]` is the key of the entry at position `idx[i]`, for every `i`. */
  predicate KeysAt(ks: seq<string>, idx: seq<nat>, entries: seq<(string, Value)>) {
    |ks| == |idx| && forall i :: 0 <= i < |ks| ==> idx[i] < |entries| && ks[i] == entries[idx[i]].0
  }

  lemma KeysAtCons(ks: seq<string>, idx: seq<nat>, entries: seq<(string, Value)>, k: nat)
    requires KeysAt(ks, idx, entries) && k < |entries|
    ensures KeysAt([entries[k].0] + ks, [k] + idx, entries)
  {
  }

  /** `key` is the key of an entry whose value is truthy. */
  ghost predicate KeptKey(entries: seq<(string, Value)>, key: string) {
    exists j :: 0 <= j < |entries| && entries[j].0 == key && Truthy(entries[j].1)
  }

  lemma TruthyKeysStep(entries: seq<(string, Value)>, here: seq<string>, rest: seq<string>)
    requires entries != []
    requires here == if Truthy(entries[0].1) then [entries[0].0] else []
    requires forall i :: 0 <= i < |rest| ==> KeptKey(entries[1..], rest[i])
    requires forall j :: 0 <= j < |entries[1..]| && Truthy(entries[1..][j].1) ==> entries[1..][j].0 in rest
    ensures forall i :: 0 <= i < |here + rest| ==> KeptKey(entries, (here + rest)[i])
    ensures forall j :: 0 <= j < |entries| && Truthy(entries[j].1) ==> entries[j].0 in here + rest
  {
    var r := here + rest;
    forall i | 0 <= i < |r|
      ensures KeptKey(entries, r[i])
    {
      if i < |here| {
        assert r[i] == entries[0].0;
      } else {
        assert r[i] == rest[i - |here|];
        var j :| 0 <= j < |entries[1..]| && entries[1..][j].0 == rest[i - |here|] && Truthy(entries[1..][j].1);
        assert entries[j + 1] == entries[1..][j];
      }
    }
    forall j | 0 <= j < |entries| && Truthy(entries[j].1)
      ensures entries[j].0 in r
    {
      if j == 0 {
        assert r[0] == entries[0].0;
      } else {
        assert entries[j] == entries[1..][j - 1];
        assert entries[j].0 in rest;
      }
    }
  }

  /** The `className` array the loop of `stringifyClass` builds. */
  function ClassNames(args: seq<ClassArg>): seq<string> {
    if args == [] then []
    else
      var here := match args[0]
        case Skipped => []
        case Name(s) => [s]
        case Flags(entries) => TruthyKeys(entries);
      here + ClassNames(args[1..])
  }

  /** `stringifyClass(...args)`: join, split on whitespace runs, trim, drop empties, join with single spaces. */
  function StringifyClass(args: seq<ClassArg>): (r: string)
    ensures Normalized(r)
  {
    var pieces := NonEmpty(TrimAll(SplitWs(Join(ClassNames(args), " "))));
    TrimAllNoSpace(SplitWs(Join(ClassNames(args), " ")));
    JoinNormalized(pieces);
    Join(pieces, " ")
  }

  /**
   * The output is the single-space join of the words of every contributed
   * name, in argument and key order: string arguments as written, object
   * keys whose value is truthy, nothing for skipped arguments.
   */
  lemma StringifyClassWords(args: seq<ClassArg>)
    ensures StringifyClass(args) == Join(ConcatWords(ClassNames(args)), " ")
    ensures Words(StringifyClass(args)) == ConcatWords(ClassNames(args))
  {
    var joined := Join(ClassNames(args), " ");
    TrimAllNoSpace(SplitWs(joined));
    SplitWsNonEmpty(joined);
    JoinWords(ClassNames(args));
    WordsOfJoin(ConcatWords(ClassNames(args)));
  }

  /** Feeding the output back as the only argument reproduces it. */
  lemma StringifyClassFixpoint(args: seq<ClassArg>)
    ensures StringifyClass([Name(StringifyClass(args))]) == StringifyClass(args)
  {
    var r := StringifyClass(args);
    StringifyClassWords(args);
    StringifyClassWords([Name(r)]);
    assert ClassNames([Name(r)]) == [r];
    assert ConcatWords([r]) == Words(r);
    WordsOfJoin(ConcatWords(ClassNames(args)));
  }

  /** `/\w/`: ASCII letters, digits and `_`. */
  predicate IsWordChar(c: char) {
    'a' <= c <= 'z' || 'A' <= c <= 'Z' || '0' <= c <= '9' || c == '_'
  }

  predicate IsUpper(c: char) {
    'A' <= c <= 'Z'
  }

  predicate IsLetter(c: char) {
    'a' <= c <= 'z' || 'A' <= c <= 'Z'
  }

  function ToLower(c: char): (r: char)
    ensures !IsUpper(r)
    ensures IsUpper(c) ==> IsLetter(r) && ToUpper(r) == c
    ensures !IsUpper(c) ==> r == c
  {
    if IsUpper(c) then (c as int + 32) as char else c
  }

  function ToUpper(c: char): (r: char)
    ensures 'a' <= c <= 'z' ==> IsUpper(r)
    ensures !('a' <= c <= 'z') ==> r == c
  {
    if 'a' <= c <= 'z' then (c as int - 32) as char else c
  }

  /** `s.toLowerCase()` on ASCII letters. */
  function LowerCase(s: string): (r: string)
    ensures |r| == |s|
    ensures forall i :: 0 <= i < |s| ==> r[i] == ToLower(s[i])
  {
    seq(|s|, i requires 0 <= i < |s| => ToLower(s[i]))
  }

  /**
   * Whether `/\B([A-Z])/` matches at the character `c` whose predecessor is
   * `prev`: `c` is an upper-case letter, so a non-boundary needs a word
   * character before it (and there is none before the first character).
   */
  predicate Marked(prev: Option<char>, c: char) {
    IsUpper(c) && prev.Some? && IsWordChar(prev.value)
  }

  /** `s.replace(/\B([A-Z])/g, '-$1')`, where `prev` is the character before `s`. */
  function Dashes(s: string, prev: Option<char>): string {
    if s == [] then []
    else (if Marked(prev, s[0]) then "-" else "") + [s[0]] + Dashes(s[1..], Some(s[0]))
  }

  /** `hyphenate(s)`. */
  function Hyphenate(s: string): (r: string)
    ensures forall i :: 0 <= i < |r| ==> !IsUpper(r[i])
    ensures |r| >= |s|
    ensures s != [] ==> r[0] == ToLower(s[0])
  {
    DashesLength(s, None);
    LowerCase(Dashes(s, None))
  }

  lemma {:induction false} DashesLength(s: string, prev: Option<char>)
    ensures |Dashes(s, prev)| >= |s|
    decreases |s|
  {
    if s != [] {
      DashesLength(s[1..], Some(s[0]));
    }
  }

  /**
   * `s.replace(/-([a-zA-Z])/g, (_, c) => c.toUpperCase())`: scanning left to
   * right, each `'-'` followed by a letter becomes that letter in upper case,
   * and the scan resumes after the pair.
   */
  function ToCamelCase(s: string): (r: string)
    ensures |r| <= |s|
  {
    if s == [] then []
    else if |s| >= 2 && s[0] == '-' && IsLetter(s[1]) then [ToUpper(s[1])] + ToCamelCase(s[2..])
    else [s[0]] + ToCamelCase(s[1..])
  }

  /**
   * The same conversion in two passes: first raise every letter that comes
   * right after a `'-'` to upper case, then drop every `'-'` that comes right
   * before a letter. Resuming the scan after each pair loses nothing.
   */
  lemma {:induction false} CamelCaseTwoPasses(s: string)
    ensures ToCamelCase(s) == DropDashes(Raise(s, false))
    decreases |s|
  {
    if s == [] {
    } else if |s| >= 2 && s[0] == '-' && IsLetter(s[1]) {
      CamelCaseTwoPasses(s[2..]);
      assert s[1..][1..] == s[2..];
      var t := Raise(s[2..], false);
      assert Raise(s, false) == ['-'] + ([ToUpper(s[1])] + t);
      assert DropDashes(['-'] + ([ToUpper(s[1])] + t)) == [ToUpper(s[1])] + DropDashes(t);
    } else if s[0] == '-' {
      CamelCaseTwoPasses(s[1..]);
      RaiseNoLetter(s[1..]);
      var t := Raise(s[1..], false);
      assert Raise(s, false) == ['-'] + t;
      assert DropDashes(['-'] + t) == ['-'] + DropDashes(t);
    } else {
      CamelCaseTwoPasses(s[1..]);
      var t := Raise(s[1..], false);
      assert Raise(s, false) == [s[0]] + t;
      assert DropDashes([s[0]] + t) == [s[0]] + DropDashes(t);
    }
  }

  /** Upper-cases each letter that directly follows a `'-'` (`afterDash`: `s` follows one). */
  function Raise(s: string, afterDash: bool): (r: string)
    ensures |r| == |s|
    ensures s != [] ==> (IsLetter(r[0]) <==> IsLetter(s[0])) && (r[0] == '-' <==> s[0] == '-')
  {
    if s == [] then []
    else [if afterDash && IsLetter(s[0]) then ToUpper(s[0]) else s[0]] + Raise(s[1..], s[0] == '-')
  }

  /** Drops each `'-'` that directly precedes a letter. */
  function DropDashes(s: string): (r: string)
    ensures |r| <= |s|
  {
    if s == [] then []
    else if |s| >= 2 && s[0] == '-' && IsLetter(s[1]) then DropDashes(s[1..])
    else [s[0]] + DropDashes(s[1..])
  }

  lemma RaiseNoLetter(s: string)
    requires s == [] || !IsLetter(s[0])
    ensures Raise(s, true) == Raise(s, false)
  {
  }

  /**
   * A camel-case identifier: no `'-'`, and every upper-case letter follows a
   * word character (`prev` being the character before `s`).
   */
  ghost predicate CamelFrom(s: string, prev: Option<char>) {
    '-' !in s &&
    (s != [] && IsUpper(s[0]) ==> prev.Some? && IsWordChar(prev.value)) &&
    forall i :: 0 < i < |s| && IsUpper(s[i]) ==> IsWordChar(s[i - 1])
  }

  /** `toCamelCase` undoes `hyphenate` on camel-case identifiers. */
  lemma CamelCaseOfHyphenate(s: string)
    requires CamelFrom(s, None)
    ensures ToCamelCase(Hyphenate(s)) == s
  {
    CamelDashes(s, None);
  }

  lemma {:induction false} CamelDashes(s: string, prev: Option<char>)
    requires CamelFrom(s, prev)
    ensures ToCamelCase(LowerCase(Dashes(s, prev))) == s
    decreases |s|
  {
    if s != [] {
      CamelTail(s, prev);
      CamelDashes(s[1..], Some(s[0]));
      CamelStep(s, prev);
    }
  }

  lemma CamelTail(s: string, prev: Option<char>)
    requires s != [] && CamelFrom(s, prev)
    ensures CamelFrom(s[1..], Some(s[0]))
  {
    forall i | 0 < i < |s[1..]| && IsUpper(s[1..][i])
      ensures IsWordChar(s[1..][i - 1])
    {
      assert s[1..][i] == s[i + 1] && s[1..][i - 1] == s[i];
    }
  }

  /** One character of `CamelDashes`, given the result for the rest. */
  lemma CamelStep(s: string, prev: Option<char>)
    requires s != [] && CamelFrom(s, prev)
    requires ToCamelCase(LowerCase(Dashes(s[1..], Some(s[0])))) == s[1..]
    ensures ToCamelCase(LowerCase(Dashes(s, prev))) == s
  {
    if Marked(prev, s[0]) {
      CamelStepMarked(s, prev);
    } else {
      CamelStepPlain(s, prev);
    }
  }

  /** An upper-case letter that gains a `'-'`. */
  lemma CamelStepMarked(s: string, prev: Option<char>)
    requires s != [] && Marked(prev, s[0])
    requires ToCamelCase(LowerCase(Dashes(s[1..], Some(s[0])))) == s[1..]
    ensures ToCamelCase(LowerCase(Dashes(s, prev))) == s
  {
    var c := s[0];
    var rest := Dashes(s[1..], Some(c));
    DashesCons(s, prev);
    LowerCaseAppend(['-', c], rest);
    assert LowerCase(['-', c]) == ['-', ToLower(c)];
    CamelCaseDash(ToLower(c), LowerCase(rest));
  }

  /** A character that is kept as it is. */
  lemma CamelStepPlain(s: string, prev: Option<char>)
    requires s != [] && !Marked(prev, s[0]) && !IsUpper(s[0]) && s[0] != '-'
    requires ToCamelCase(LowerCase(Dashes(s[1..], Some(s[0])))) == s[1..]
    ensures ToCamelCase(LowerCase(Dashes(s, prev))) == s
  {
    var c := s[0];
    var rest := Dashes(s[1..], Some(c));
    DashesCons(s, prev);
    LowerCaseAppend([c], rest);
    assert LowerCase([c]) == [c];
    CamelCasePlain(c, LowerCase(rest));
  }

  lemma DashesCons(s: string, prev: Option<char>)
    requires s != []
    ensures Dashes(s, prev) == (if Marked(prev, s[0]) then ['-', s[0]] else [s[0]]) + Dashes(s[1..], Some(s[0]))
  {
  }

  /**
   * Where `hyphenate` puts its dashes: the result for `a + b` is the results
   * for `a` and `b` side by side, with one `'-'` between them exactly when
   * `b` starts with an upper-case letter and `a` ends in a word character
   * (the `\B` of the pattern). With `HyphenateOne`, which lower-cases a
   * single character, this determines `hyphenate` on every input.
   */
  lemma HyphenateAppend(a: string, b: string)
    ensures Hyphenate(a + b) ==
      Hyphenate(a) + (if a != [] && b != [] && IsUpper(b[0]) && IsWordChar(a[|a| - 1]) then "-" else "") + Hyphenate(b)
  {
    var p := if a == [] then None else Some(a[|a| - 1]);
    var d: string := if b != [] && Marked(p, b[0]) then "-" else "";
    var da, db := Dashes(a, None), Dashes(b, None);
    calc {
      Hyphenate(a + b);
      LowerCase(Dashes(a + b, None));
      { DashesAppend(a, b, None); }
      LowerCase(da + Dashes(b, p));
      { DashesAfter(b, p); }
      LowerCase(da + (d + db));
      { LowerCaseAppend(da, d + db); LowerCaseAppend(d, db); }
      LowerCase(da) + (LowerCase(d) + LowerCase(db));
      { assert LowerCase(d) == d; }
      Hyphenate(a) + (d + Hyphenate(b));
      Hyphenate(a) + d + Hyphenate(b);
    }
  }

  /** A single character is only lower-cased. */
  lemma HyphenateOne(c: char)
    ensures Hyphenate([c]) == [ToLower(c)]
  {
    DashesCons([c], None);
    assert [c][1..] == [];
  }

  lemma {:induction false} DashesAppend(a: string, b: string, prev: Option<char>)
    ensures Dashes(a + b, prev) == Dashes(a, prev) + Dashes(b, if a == [] then prev else Some(a[|a| - 1]))
    decreases |a|
  {
    if a == [] {
      assert a + b == b;
    } else {
      var head: string := if Marked(prev, a[0]) then ['-', a[0]] else [a[0]];
      DashesCons(a + b, prev);
      DashesCons(a, prev);
      assert (a + b)[1..] == a[1..] + b;
      DashesAppend(a[1..], b, Some(a[0]));
      if |a| > 1 {
        assert a[1..][|a[1..]| - 1] == a[|a| - 1];
      }
      Seqs.AppendAssoc(head, Dashes(a[1..], Some(a[0])), Dashes(b, if a[1..] == [] then Some(a[0]) else Some(a[|a| - 1])));
    }
  }

  /** Only the first character of `b` can see the character before it. */
  lemma DashesAfter(b: string, p: Option<char>)
    ensures Dashes(b, p) == (if b != [] && Marked(p, b[0]) then "-" else "") + Dashes(b, None)
  {
    if b != [] {
      DashesCons(b, p);
      DashesCons(b, None);
    }
  }

  lemma CamelCaseDash(l: char, t: string)
    requires IsLetter(l)
    ensures ToCamelCase(['-', l] + t) == [ToUpper(l)] + ToCamelCase(t)
  {
    assert (['-', l] + t)[2..] == t;
  }

  lemma CamelCasePlain(c: char, t: string)
    requires c != '-'
    ensures ToCamelCase([c] + t) == [c] + ToCamelCase(t)
  {
    assert ([c] + t)[1..] == t;
  }

  lemma LowerCaseAppend(a: string, b: string)
    ensures LowerCase(a + b) == LowerCase(a) + LowerCase(b)
  {
  }

  /**
   * A kebab-case identifier: no upper-case letter, and every `'-'` sits
   * between a word character and a lower-case letter.
   */
  ghost predicate Kebab(s: string) {
    (forall i :: 0 <= i < |s| ==> !IsUpper(s[i])) &&
    forall i :: 0 <= i < |s| && s[i] == '-' ==>
      0 < i < |s| - 1 && IsWordChar(s[i - 1]) && 'a' <= s[i + 1] <= 'z'
  }

  /** `hyphenate` undoes `toCamelCase` on kebab-case identifiers. */
  lemma HyphenateOfCamelCase(s: string)
    requires Kebab(s)
    ensures Hyphenate(ToCamelCase(s)) == s
  {
    KebabDashes(s, None);
  }

  /** `Kebab`, for a suffix whose predecessor is `prev`. */
  ghost predicate KebabFrom(s: string, prev: Option<char>) {
    (forall i :: 0 <= i < |s| ==> !IsUpper(s[i])) &&
    (forall i :: 0 <= i < |s| && s[i] == '-' ==> i < |s| - 1 && 'a' <= s[i + 1] <= 'z') &&
    (forall i :: 0 < i < |s| && s[i] == '-' ==> IsWordChar(s[i - 1])) &&
    (s != [] && s[0] == '-' ==> prev.Some? && IsWordChar(prev.value))
  }

  lemma {:induction false} KebabDashes(s: string, prev: Option<char>)
    requires KebabFrom(s, prev)
    ensures LowerCase(Dashes(ToCamelCase(s), prev)) == s
    decreases |s|
  {
    if s != [] {
      if s[0] == '-' {
        var u := ToUpper(s[1]);
        KebabSuffix(s, 2, u);
        KebabDashes(s[2..], Some(u));
        KebabStepDash(s, prev);
      } else {
        KebabSuffix(s, 1, s[0]);
        KebabDashes(s[1..], Some(s[0]));
        KebabStepPlain(s, prev);
      }
    }
  }

  lemma KebabSuffix(s: string, k: nat, p: char)
    requires 0 < k <= |s|
    requires forall i :: 0 <= i < |s| ==> !IsUpper(s[i])
    requires forall i :: 0 <= i < |s| && s[i] == '-' ==> i < |s| - 1 && 'a' <= s[i + 1] <= 'z'
    requires forall i :: 0 < i < |s| && s[i] == '-' ==> IsWordChar(s[i - 1])
    requires k < |s| && s[k] == '-' ==> IsWordChar(p)
    ensures KebabFrom(s[k..], Some(p))
  {
    var t := s[k..];
    forall i | 0 <= i < |t| && t[i] == '-'
      ensures i < |t| - 1 && 'a' <= t[i + 1] <= 'z'
    {
      assert t[i] == s[k + i];
      assert k + i + 1 < |s| && t[i + 1] == s[k + i + 1];
    }
    forall i | 0 < i < |t| && t[i] == '-'
      ensures IsWordChar(t[i - 1])
    {
      assert t[i] == s[k + i] && t[i - 1] == s[k + i - 1];
    }
  }

  /** A `'-'` and its letter, given the result for the rest. */
  lemma KebabStepDash(s: string, prev: Option<char>)
    requires s != [] && s[0] == '-' && KebabFrom(s, prev)
    requires LowerCase(Dashes(ToCamelCase(s[2..]), Some(ToUpper(s[1])))) == s[2..]
    ensures LowerCase(Dashes(ToCamelCase(s), prev)) == s
  {
    var u := ToUpper(s[1]);
    var t := ToCamelCase(s[2..]);
    assert s == ['-', s[1]] + s[2..];
    CamelCaseDash(s[1], s[2..]);
    DashesCons([u] + t, prev);
    assert ([u] + t)[1..] == t;
    var rest := Dashes(t, Some(u));
    LowerCaseAppend(['-', u], rest);
    assert LowerCase(['-', u]) == ['-', s[1]];
  }

  /** Any other character, given the result for the rest. */
  lemma KebabStepPlain(s: string, prev: Option<char>)
    requires s != [] && s[0] != '-' && KebabFrom(s, prev)
    requires LowerCase(Dashes(ToCamelCase(s[1..]), Some(s[0]))) == s[1..]
    ensures LowerCase(Dashes(ToCamelCase(s), prev)) == s
  {
    var c := s[0];
    var t := ToCamelCase(s[1..]);
    assert s == [c] + s[1..];
    CamelCasePlain(c, s[1..]);
    DashesCons([c] + t, prev);
    assert ([c] + t)[1..] == t;
    var rest := Dashes(t, Some(c));
    LowerCaseAppend([c], rest);
    assert LowerCase([c]) == [c];
  }

  /** Text without `'-'` is left unchanged by `toCamelCase`. */
  lemma {:induction false} CamelCaseNoDash(s: string)
    requires '-' !in s
    ensures ToCamelCase(s) == s
    decreases |s|
  {
    if s != [] {
      assert '-' !in s[1..];
      CamelCaseNoDash(s[1..]);
    }
  }

  /**
   * Apart from the dashes it inserts, `hyphenate` only lower-cases:
   * dropping every `'-'` from both sides leaves the lower-cased input.
   */
  lemma HyphenateOnlyInsertsDashes(s: string)
    ensures Seqs.Without(Hyphenate(s), '-') == LowerCase(Seqs.Without(s, '-'))
  {
    DashesOnlyInsert(s, None);
    LowerCaseWithout(Dashes(s, None));
  }

  lemma {:induction false} DashesOnlyInsert(s: string, prev: Option<char>)
    ensures Seqs.Without(Dashes(s, prev), '-') == Seqs.Without(s, '-')
    decreases |s|
  {
    if s != [] {
      var pre: string := if Marked(prev, s[0]) then "-" else "";
      DashesOnlyInsert(s[1..], Some(s[0]));
      DashesCons(s, prev);
      assert Dashes(s, prev) == pre + [s[0]] + Dashes(s[1..], Some(s[0]));
      WithoutDashPrefix(pre, s[0], Dashes(s[1..], Some(s[0])), s[1..]);
      assert [s[0]] + s[1..] == s;
    }
  }

  /** One step of `DashesOnlyInsert`: an optional leading `'-'` vanishes when dashes are dropped. */
  lemma WithoutDashPrefix(pre: string, c: char, tail: string, rest: string)
    requires pre == "" || pre == "-"
    requires Seqs.Without(tail, '-') == Seqs.Without(rest, '-')
    ensures Seqs.Without(pre + [c] + tail, '-') == Seqs.Without([c] + rest, '-')
  {
    Seqs.WithoutAppend(pre + [c], tail, '-');
    Seqs.WithoutAppend(pre, [c], '-');
    Seqs.WithoutAppend([c], rest, '-');
    assert Seqs.Without(pre, '-') == [];
  }

  lemma {:induction false} LowerCaseWithout(t: string)
    ensures Seqs.Without(LowerCase(t), '-') == LowerCase(Seqs.Without(t, '-'))
    decreases |t|
  {
    if t != [] {
      var c := t[0];
      var rest := Seqs.Without(t[1..], '-');
      var head: string := if c == '-' then [] else [c];
      LowerCaseWithout(t[1..]);
      LowerCaseCons(c, t[1..]);
      Seqs.WithoutAppend([ToLower(c)], LowerCase(t[1..]), '-');
      LowerCaseAppend(head, rest);
      calc {
        Seqs.Without(LowerCase(t), '-');
        { assert t == [c] + t[1..]; }
        Seqs.Without([ToLower(c)] + LowerCase(t[1..]), '-');
        Seqs.Without([ToLower(c)], '-') + Seqs.Without(LowerCase(t[1..]), '-');
        { assert Seqs.Without([ToLower(c)], '-') == LowerCase(head); }
        LowerCase(head) + LowerCase(rest);
        LowerCase(head + rest);
        { assert Seqs.Without(t, '-') == head + rest; }
        LowerCase(Seqs.Without(t, '-'));
      }
    }
  }

  lemma LowerCaseCons(c: char, t: string)
    ensures LowerCase([c] + t) == [ToLower(c)] + LowerCase(t)
  {
  }

  /** Text without an upper-case letter comes out of `hyphenate` unchanged. */
  lemma HyphenateNoUpper(s: string)
    requires forall i :: 0 <= i < |s| ==> !IsUpper(s[i])
    ensures Hyphenate(s) == s
  {
    DashesNoUpper(s, None);
  }

  lemma {:induction false} DashesNoUpper(s: string, prev: Option<char>)
    requires forall i :: 0 <= i < |s| ==> !IsUpper(s[i])
    ensures Dashes(s, prev) == s
    decreases |s|
  {
    if s != [] {
      DashesNoUpper(s[1..], Some(s[0]));
    }
  }
}
