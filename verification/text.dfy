/**
 * Whitespace handling shared by the class-name helpers: JavaScript's `\s`
 * (ASCII members only), `split(/\s+/)`, `trim`, `filter(Boolean)` and `join`.
 * `Words` is an independent definition of "the maximal runs of
 * non-whitespace", against which the split-based pipelines are stated.
 */
module Text {

  /** The ASCII members of `\s`: tab, line feed, vertical tab, form feed, carriage return, space. */
  predicate IsSpace(c: char) {
    c == ' ' || '\t' <= c <= '\r'
  }

  predicate NoSpace(s: string) {
    forall i :: 0 <= i < |s| ==> !IsSpace(s[i])
  }

  predicate AllSpace(s: string) {
    forall i :: 0 <= i < |s| ==> IsSpace(s[i])
  }

  /** The longest prefix of `s` without whitespace. */
  function WordPrefix(s: string): (w: string)
    ensures |w| <= |s| && w == s[..|w|]
    ensures NoSpace(w)
    ensures |w| < |s| ==> IsSpace(s[|w|])
  {
    if s == [] || IsSpace(s[0]) then [] else [s[0]] + WordPrefix(s[1..])
  }

  /** `s` without its leading whitespace run. */
  function DropSpaces(s: string): (r: string)
    ensures |r| <= |s|
    ensures r == [] || !IsSpace(r[0])
    ensures s != [] && IsSpace(s[0]) ==> |r| < |s|
  {
    if s != [] && IsSpace(s[0]) then DropSpaces(s[1..]) else s
  }

  /** `s` without its trailing whitespace run. */
  function DropTrailingSpaces(s: string): (r: string)
    ensures |r| <= |s| && r == s[..|r|]
    ensures AllSpace(s[|r|..])
    ensures r == [] || !IsSpace(r[|r| - 1])
  {
    if s != [] && IsSpace(s[|s| - 1]) then DropTrailingSpaces(s[..|s| - 1]) else s
  }

  /** `s.trim()`. */
  function Trim(s: string): (r: string)
    ensures r == [] || (!IsSpace(r[0]) && !IsSpace(r[|r| - 1]))
    ensures NoSpace(s) ==> r == s
  {
    DropTrailingSpaces(DropSpaces(s))
  }

  /**
   * `s.split(/\s+/)`: the pieces between maximal whitespace runs. Leading
   * or trailing whitespace yields an empty first or last piece, and `""`
   * splits to `[""]`.
   */
  function SplitWs(s: string): (r: seq<string>)
    ensures |r| > 0
    ensures forall i :: 0 <= i < |r| ==> NoSpace(r[i])
    decreases |s|
  {
    var w := WordPrefix(s);
    if |w| == |s| then [s]
    else [w] + SplitWs(DropSpaces(s[|w|..]))
  }

  /** The maximal runs of non-whitespace characters of `s`, in order. */
  function Words(s: string): (r: seq<string>)
    ensures forall i :: 0 <= i < |r| ==> r[i] != [] && NoSpace(r[i])
    decreases |s|
  {
    if s == [] then []
    else if IsSpace(s[0]) then Words(s[1..])
    else
      var w := WordPrefix(s);
      [w] + Words(s[|w|..])
  }

  /** `parts.join(sep)`. */
  function Join(parts: seq<string>, sep: string): string {
    if parts == [] then ""
    else if |parts| == 1 then parts[0]
    else parts[0] + sep + Join(parts[1..], sep)
  }

  /** `parts.filter(Boolean)` on strings: the non-empty parts, in order. */
  function NonEmpty(parts: seq<string>): (r: seq<string>)
    ensures forall i :: 0 <= i < |r| ==> r[i] != [] && r[i] in parts
    ensures forall i :: 0 <= i < |parts| && parts[i] != [] ==> parts[i] in r
    ensures |r| <= |parts|
  {
    if parts == [] then []
    else (if parts[0] == [] then [] else [parts[0]]) + NonEmpty(parts[1..])
  }

  /** `parts.map((item) => item.trim())`. */
  function TrimAll(parts: seq<string>): (r: seq<string>)
    ensures |r| == |parts|
    ensures forall i :: 0 <= i < |r| ==> r[i] == Trim(parts[i])
  {
    seq(|parts|, i requires 0 <= i < |parts| => Trim(parts[i]))
  }

  /** The words of every part, concatenated in order. */
  function ConcatWords(parts: seq<string>): seq<string> {
    if parts == [] then [] else Words(parts[0]) + ConcatWords(parts[1..])
  }

  /**
   * The normal form of a class string: no leading or trailing whitespace,
   * and every whitespace character is one `' '` between two non-whitespace
   * characters.
   */
  ghost predicate Normalized(s: string) {
    forall i :: 0 <= i < |s| && IsSpace(s[i]) ==>
      s[i] == ' ' && 0 < i < |s| - 1 && !IsSpace(s[i - 1]) && !IsSpace(s[i + 1])
  }

  /** Appending text after a whitespace boundary does not change the first word. */
  lemma {:induction false} WordPrefixExtend(s: string, x: string)
    requires |WordPrefix(s)| < |s| || x == [] || IsSpace(x[0])
    ensures WordPrefix(s + x) == WordPrefix(s)
    decreases |s|
  {
    if s == [] {
      assert s + x == x;
    } else if !IsSpace(s[0]) {
      assert (s + x)[0] == s[0] && (s + x)[1..] == s[1..] + x;
      WordPrefixExtend(s[1..], x);
    }
  }

  lemma {:induction false} WordsAllSpace(s: string)
    requires AllSpace(s)
    ensures Words(s) == []
    decreases |s|
  {
    if s != [] {
      WordsAllSpace(s[1..]);
    }
  }

  /** Leading whitespace contributes no word. */
  lemma {:induction false} WordsAfterSpaces(x: string, y: string)
    requires AllSpace(x)
    ensures Words(x + y) == Words(y)
    decreases |x|
  {
    if x == [] {
      assert x + y == y;
    } else {
      assert (x + y)[0] == x[0] && (x + y)[1..] == x[1..] + y;
      WordsAfterSpaces(x[1..], y);
    }
  }

  /** A single whitespace-free string is one word, or none when empty. */
  lemma WordsOfWord(w: string)
    requires NoSpace(w)
    ensures Words(w) == if w == [] then [] else [w]
  {
    if w != [] {
      assert WordPrefix(w) == w;
      assert w[|w|..] == [];
    }
  }

  /** A whitespace character separates the words on either side of it. */
  lemma {:induction false} WordsAroundSpace(a: string, c: char, b: string)
    requires IsSpace(c)
    ensures Words(a + [c] + b) == Words(a) + Words(b)
    decreases |a|
  {
    var s := a + [c] + b;
    if a == [] {
      assert s[1..] == b;
    } else if IsSpace(a[0]) {
      assert s[0] == a[0] && s[1..] == a[1..] + [c] + b;
      WordsAroundSpace(a[1..], c, b);
    } else {
      var w := WordPrefix(a);
      assert s == a + ([c] + b);
      WordPrefixExtend(a, [c] + b);
      assert WordPrefix(s) == w;
      assert s[|w|..] == a[|w|..] + [c] + b;
      WordsAroundSpace(a[|w|..], c, b);
      assert Words(s) == [w] + (Words(a[|w|..]) + Words(b));
      assert Words(a) == [w] + Words(a[|w|..]);
      ConsAssoc(w, Words(a[|w|..]), Words(b));
    }
  }

  lemma ConsAssoc<T>(x: T, a: seq<T>, b: seq<T>)
    ensures [x] + (a + b) == ([x] + a) + b
  {
  }

  /** The words of `parts.join(' ')` are the words of the parts, in order. */
  lemma {:induction false} JoinWords(parts: seq<string>)
    ensures Words(Join(parts, " ")) == ConcatWords(parts)
    decreases |parts|
  {
    if |parts| == 1 {
      assert ConcatWords(parts[1..]) == [];
    } else if |parts| > 1 {
      JoinWords(parts[1..]);
      WordsAroundSpace(parts[0], ' ', Join(parts[1..], " "));
      assert parts[0] + " " + Join(parts[1..], " ") == parts[0] + [' '] + Join(parts[1..], " ");
    }
  }

  /** For whitespace-free parts, collecting words is dropping the empty parts. */
  lemma {:induction false} ConcatWordsNoSpace(parts: seq<string>)
    requires forall i :: 0 <= i < |parts| ==> NoSpace(parts[i])
    ensures ConcatWords(parts) == NonEmpty(parts)
    decreases |parts|
  {
    if parts != [] {
      WordsOfWord(parts[0]);
      ConcatWordsNoSpace(parts[1..]);
    }
  }

  /** Leading whitespace contributes no word. */
  lemma {:induction false} WordsDropSpaces(x: string)
    ensures Words(DropSpaces(x)) == Words(x)
    ensures x != [] && DropSpaces(x) == [] ==> IsSpace(x[|x| - 1])
    ensures DropSpaces(x) != [] ==> DropSpaces(x)[|DropSpaces(x)| - 1] == x[|x| - 1]
    decreases |x|
  {
    if x != [] && IsSpace(x[0]) {
      WordsDropSpaces(x[1..]);
    }
  }

  /** Trailing whitespace contributes no word. */
  lemma {:induction false} WordsDropTrailing(x: string)
    ensures Words(DropTrailingSpaces(x)) == Words(x)
    decreases |x|
  {
    if x != [] && IsSpace(x[|x| - 1]) {
      var y := x[..|x| - 1];
      assert x == y + [x[|x| - 1]] + [];
      WordsAroundSpace(y, x[|x| - 1], []);
      WordsDropTrailing(y);
    }
  }

  /** A word followed by a whitespace boundary: its words are it, then the rest's. */
  lemma WordsAfterWord(w: string, rest: string)
    requires NoSpace(w)
    requires rest == [] || IsSpace(rest[0])
    ensures Words(w + rest) == Words(w) + Words(rest)
  {
    if rest == [] {
      assert w + rest == w;
    } else {
      assert w + rest == w + [rest[0]] + rest[1..];
      WordsAroundSpace(w, rest[0], rest[1..]);
    }
  }

  /** One step of `split(/\s+/)`: the first piece, then the split of what follows the whitespace run. */
  lemma SplitWsStep(s: string)
    requires |WordPrefix(s)| < |s|
    ensures var w := WordPrefix(s); var d := DropSpaces(s[|w|..]);
      && Words(s) == Words(w) + Words(d)
      && (d == [] ==> IsSpace(s[|s| - 1]))
      && (d != [] ==> d[|d| - 1] == s[|s| - 1])
      && (w == [] ==> IsSpace(s[0]))
  {
    var w := WordPrefix(s);
    var rest := s[|w|..];
    assert s == w + rest;
    WordsAfterWord(w, rest);
    WordsDropSpaces(rest);
  }

  /** The empty piece `split(/\s+/)` yields for leading whitespace. */
  function Lead(s: string): seq<string>
    requires s != []
  {
    if IsSpace(s[0]) then [""] else []
  }

  /** The empty piece `split(/\s+/)` yields for trailing whitespace. */
  function Trail(s: string): seq<string>
    requires s != []
  {
    if IsSpace(s[|s| - 1]) then [""] else []
  }

  /**
   * The exact shape of `split(/\s+/)` on a non-empty string: the words,
   * with an empty piece in front when it starts with whitespace and one at
   * the end when it ends with whitespace.
   */
  lemma {:induction false} SplitWsShape(s: string)
    requires s != []
    ensures SplitWs(s) == Lead(s) + Words(s) + Trail(s)
    decreases |s|
  {
    var w := WordPrefix(s);
    if |w| == |s| {
      assert w == s;
      WordsOfWord(s);
      assert Lead(s) == [] && Trail(s) == [];
    } else if DropSpaces(s[|w|..]) == [] {
      SplitWsShapeLast(s);
    } else {
      var d := DropSpaces(s[|w|..]);
      SplitWsShape(d);
      if w == [] {
        SplitWsShapeLeading(s);
      } else {
        SplitWsShapeWord(s);
      }
    }
  }

  /** The last step of `split(/\s+/)`: a first piece followed by trailing whitespace only. */
  lemma SplitWsShapeLast(s: string)
    requires |WordPrefix(s)| < |s| && DropSpaces(s[|WordPrefix(s)|..]) == []
    ensures SplitWs(s) == Lead(s) + Words(s) + Trail(s)
  {
    var w := WordPrefix(s);
    var d := DropSpaces(s[|w|..]);
    assert SplitWs(s) == [w] + SplitWs(d);
    SplitWsStep(s);
    WordsOfWord(w);
    assert SplitWs(d) == [""];
    assert Trail(s) == [""];
    if w == [] {
      assert Lead(s) == [""];
      assert Words(s) == [];
      NilAppend([""], [""]);
      assert [""] + [] == [""];
    } else {
      assert Lead(s) == [];
      assert Words(s) == [w];
      NilAppend([w], [""]);
    }
  }

  /** An inner step of `split(/\s+/)` after leading whitespace, given the shape of the rest. */
  lemma SplitWsShapeLeading(s: string)
    requires |WordPrefix(s)| < |s| && WordPrefix(s) == []
    requires var d := DropSpaces(s[|WordPrefix(s)|..]);
      d != [] && SplitWs(d) == Lead(d) + Words(d) + Trail(d)
    ensures SplitWs(s) == Lead(s) + Words(s) + Trail(s)
  {
    var d := DropSpaces(s[0..]);
    assert SplitWs(s) == [""] + SplitWs(d);
    SplitWsStep(s);
    WordsOfWord([]);
    assert Lead(d) == [] && Lead(s) == [""];
    assert Trail(d) == Trail(s);
    assert Words(s) == Words(d);
  }

  /** An inner step of `split(/\s+/)` after a word, given the shape of the rest. */
  lemma SplitWsShapeWord(s: string)
    requires 0 < |WordPrefix(s)| < |s|
    requires var d := DropSpaces(s[|WordPrefix(s)|..]);
      d != [] && SplitWs(d) == Lead(d) + Words(d) + Trail(d)
    ensures SplitWs(s) == Lead(s) + Words(s) + Trail(s)
  {
    var w := WordPrefix(s);
    var d := DropSpaces(s[|w|..]);
    assert SplitWs(s) == [w] + SplitWs(d);
    SplitWsStep(s);
    WordsOfWord(w);
    assert Lead(d) == [] && Lead(s) == [];
    var t := Trail(s);
    assert Trail(d) == t;
    NilAppend(Words(d), t);
    assert Words(s) == [w] + Words(d);
    ConsAppend(w, Words(d), t);
  }

  lemma NilAppend<T>(a: seq<T>, b: seq<T>)
    ensures [] + a + b == a + b
  {
  }

  lemma ConsAppend<T>(x: T, a: seq<T>, b: seq<T>)
    ensures [x] + (a + b) == [] + ([x] + a) + b
  {
  }

  /** `split(/\s+/)` followed by `filter(Boolean)` yields exactly the words. */
  lemma SplitWsNonEmpty(s: string)
    ensures NonEmpty(SplitWs(s)) == Words(s)
  {
    if s != [] {
      SplitWsShape(s);
      NonEmptyAppend(Lead(s), Words(s));
      NonEmptyAppend(Lead(s) + Words(s), Trail(s));
      NonEmptyWords(Words(s));
      assert NonEmpty(Lead(s)) == [] && NonEmpty(Trail(s)) == [];
    }
  }

  /** A non-empty piece of `split(/\s+/)` is a word, and every word is a piece. */
  lemma SplitWsMember(s: string, t: string)
    requires t != []
    ensures t in SplitWs(s) <==> t in Words(s)
  {
    SplitWsNonEmpty(s);
  }

  lemma {:induction false} NonEmptyAppend(a: seq<string>, b: seq<string>)
    ensures NonEmpty(a + b) == NonEmpty(a) + NonEmpty(b)
    decreases |a|
  {
    if a == [] {
      assert a + b == b;
    } else {
      assert (a + b)[0] == a[0] && (a + b)[1..] == a[1..] + b;
      NonEmptyAppend(a[1..], b);
    }
  }

  lemma {:induction false} NonEmptyWords(ws: seq<string>)
    requires forall i :: 0 <= i < |ws| ==> ws[i] != []
    ensures NonEmpty(ws) == ws
    decreases |ws|
  {
    if ws != [] {
      NonEmptyWords(ws[1..]);
    }
  }

  /** Trimming whitespace-free pieces changes nothing. */
  lemma TrimAllNoSpace(parts: seq<string>)
    requires forall i :: 0 <= i < |parts| ==> NoSpace(parts[i])
    ensures TrimAll(parts) == parts
  {
  }

  /** Trimming never changes the words of a string. */
  lemma TrimWords(s: string)
    ensures Words(Trim(s)) == Words(s)
  {
    WordsDropSpaces(s);
    WordsDropTrailing(DropSpaces(s));
  }

  /** Joining non-empty whitespace-free words with single spaces gives a normalized string. */
  lemma {:induction false} JoinNormalized(ws: seq<string>)
    requires forall i :: 0 <= i < |ws| ==> ws[i] != [] && NoSpace(ws[i])
    ensures Normalized(Join(ws, " "))
    ensures ws != [] ==> Join(ws, " ") != [] && Join(ws, " ")[0] == ws[0][0]
    decreases |ws|
  {
    if |ws| == 1 {
      assert NoSpace(Join(ws, " "));
    } else if |ws| > 1 {
      JoinNormalized(ws[1..]);
      var w := ws[0];
      var j := Join(ws[1..], " ");
      var s := Join(ws, " ");
      assert s == w + [' '] + j;
      assert !IsSpace(j[0]);
      forall i | 0 <= i < |s| && IsSpace(s[i])
        ensures s[i] == ' ' && 0 < i < |s| - 1 && !IsSpace(s[i - 1]) && !IsSpace(s[i + 1])
      {
        if i < |w| {
          assert false;
        } else if i > |w| {
          assert s[i] == j[i - |w| - 1];
          assert s[i - 1] == if i - 1 == |w| then ' ' else j[i - |w| - 2];
          assert s[i + 1] == j[i - |w|];
        } else {
          assert s[i - 1] == w[|w| - 1];
        }
      }
    }
  }

  /** The words of a single-space join of words are those words. */
  lemma WordsOfJoin(ws: seq<string>)
    requires forall i :: 0 <= i < |ws| ==> ws[i] != [] && NoSpace(ws[i])
    ensures Words(Join(ws, " ")) == ws
  {
    JoinWords(ws);
    ConcatWordsNoSpace(ws);
    NonEmptyWords(ws);
  }

  lemma {:induction false} ConcatWordsAppend(a: seq<string>, b: seq<string>)
    ensures ConcatWords(a + b) == ConcatWords(a) + ConcatWords(b)
    decreases |a|
  {
    if a == [] {
      assert a + b == b;
    } else {
      assert (a + b)[0] == a[0] && (a + b)[1..] == a[1..] + b;
      ConcatWordsAppend(a[1..], b);
    }
  }

  /** Joining one more part appends the separator and that part. */
  lemma {:induction false} JoinSnoc(parts: seq<string>, x: string, sep: string)
    requires parts != []
    ensures Join(parts + [x], sep) == Join(parts, sep) + sep + x
    decreases |parts|
  {
    if |parts| == 1 {
      assert parts + [x] == [parts[0], x];
      assert [parts[0], x][1..] == [x];
    } else {
      assert (parts + [x])[0] == parts[0] && (parts + [x])[1..] == parts[1..] + [x];
      JoinSnoc(parts[1..], x, sep);
    }
  }
}
