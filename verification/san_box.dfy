/**
 * `getErrorMessage` of the script sandbox, in both versions
 * (packages/utils/src/node/san-box.ts and src/node/san-box.ts): it reads the
 * location of a script error off the first lines of the error's stack text.
 * Node puts the failing file as `path:line` on the first line, the source
 * line on the second, and a run of `^` under the offending text on the third.
 */
module SanBox {

  import opened Wrappers
  import opened JsValue
  import Text
  import Seqs

  // ----- Splitting into lines -----

  /** `s.split(c)` for a one-character separator: always at least one piece. */
  function SplitOn(s: string, c: char): (r: seq<string>)
    ensures |r| >= 1
    ensures forall i :: 0 <= i < |r| ==> c !in r[i]
  {
    if s == [] then [""]
    else
      var rest := SplitOn(s[1..], c);
      if s[0] == c then [""] + rest else [[s[0]] + rest[0]] + rest[1..]
  }

  /** Joining the pieces with the separator gives the text back. */
  lemma {:induction false} SplitOnJoin(s: string, c: char)
    ensures Text.Join(SplitOn(s, c), [c]) == s
  {
    if s != [] {
      var rest := SplitOn(s[1..], c);
      SplitOnJoin(s[1..], c);
      if s[0] == c {
        assert SplitOn(s, c)[1..] == rest;
        assert Text.Join(SplitOn(s, c), [c]) == "" + [c] + Text.Join(rest, [c]);
        assert "" + [c] + s[1..] == s;
      } else if |rest| == 1 {
        assert Text.Join(SplitOn(s, c), [c]) == [s[0]] + rest[0];
        assert [s[0]] + s[1..] == s;
      } else {
        var r := SplitOn(s, c);
        assert r[1..] == rest[1..];
        assert Text.Join(r, [c]) == ([s[0]] + rest[0]) + [c] + Text.Join(rest[1..], [c]);
        Seqs.AppendAssoc([s[0]], rest[0], [c]);
        Seqs.AppendAssoc([s[0]], rest[0] + [c], Text.Join(rest[1..], [c]));
        assert [s[0]] + s[1..] == s;
      }
    }
  }

  /** A text without the separator is one piece. */
  lemma {:induction false} SplitOnNone(s: string, c: char)
    requires c !in s
    ensures SplitOn(s, c) == [s]
  {
    if s != [] {
      assert c !in s[1..];
      SplitOnNone(s[1..], c);
      assert [s[0]] + s[1..] == s;
    }
  }

  /** The text before the first separator is the first piece, the rest is split on. */
  lemma {:induction false} SplitOnFirst(a: string, c: char, b: string)
    requires c !in a
    ensures SplitOn(a + [c] + b, c) == [a] + SplitOn(b, c)
  {
    var s := a + [c] + b;
    if a == [] {
      assert s[1..] == b;
    } else {
      assert s[1..] == a[1..] + [c] + b;
      assert c !in a[1..];
      SplitOnFirst(a[1..], c, b);
      assert [a[0]] + a[1..] == a;
    }
  }

  /** The `i`-th piece of a destructuring `[a, b, c] = pieces`; a missing piece reads as `''`, which is just as falsy as `undefined`. */
  function LineAt(lines: seq<string>, i: nat): string {
    if i < |lines| then lines[i] else ""
  }

  // ----- The two regular expressions -----

  /** The length of the longest suffix of `s` whose characters are all in the class. */
  function TrailingRun(s: string, inClass: char -> bool): (n: nat)
    ensures n <= |s|
    ensures forall j :: |s| - n <= j < |s| ==> inClass(s[j])
    ensures n < |s| ==> !inClass(s[|s| - n - 1])
  {
    if s == [] || !inClass(s[|s| - 1]) then 0 else 1 + TrailingRun(s[..|s| - 1], inClass)
  }

  /** `s[k..]` is `:` followed by one or more digits up to the end: where `/:\d+$/` can match. */
  predicate ColonDigitsAt(s: string, k: int) {
    0 <= k < |s| - 1 && s[k] == ':' && forall j :: k < j < |s| ==> IsDigit(s[j])
  }

  /** The index of the match of `/:\d+$/` in `s`, if any. There is at most one place it can match. */
  function LineMatch(s: string): (r: Option<nat>)
    ensures forall k :: ColonDigitsAt(s, k) <==> r == Some(k)
  {
    var d := TrailingRun(s, IsDigit);
    if 0 < d < |s| && s[|s| - d - 1] == ':' then Some(|s| - d - 1) else None
  }

  predicate IsCaret(c: char) {
    c == '^'
  }

  /** `s[k..]` is one or more `^` up to the end: where `/\^+$/` can match. */
  predicate CaretsAt(s: string, k: int) {
    0 <= k < |s| && forall j :: k <= j < |s| ==> s[j] == '^'
  }

  /** The index of the (leftmost) match of `/\^+$/` in `s`, if any. */
  function CaretMatch(s: string): (r: Option<nat>)
    ensures r.None? <==> forall k :: !CaretsAt(s, k)
    ensures r.Some? ==> CaretsAt(s, r.value) && forall i :: 0 <= i < r.value ==> !CaretsAt(s, i)
  {
    var n := TrailingRun(s, IsCaret);
    if n > 0 then
      assert forall k :: CaretsAt(s, k) ==> k >= |s| - n by {
        forall k | CaretsAt(s, k) ensures k >= |s| - n {
          if n < |s| {
            assert !IsCaret(s[|s| - n - 1]);
          }
        }
      }
      assert CaretsAt(s, |s| - n);
      Some(|s| - n)
    else
      assert forall k :: !CaretsAt(s, k) by {
        forall k | 0 <= k < |s| ensures !CaretsAt(s, k) {
          assert s[|s| - 1] != '^';
        }
      }
      None
  }

  /** The digits after the colon of a `/:\d+$/` match, read as `parseInt` reads them. */
  function LineNumber(s: string, k: nat): (n: nat)
    requires ColonDigitsAt(s, k)
  {
    DecimalValue(s[k + 1..])
  }

  // ----- packages/utils/src/node/san-box.ts -----

  /** The thrown error, as far as `getErrorMessage` reads it. */
  datatype Error = Error(name: string, message: string, stack: Option<string>, cause: Value)

  /** Where the error is: file, 1-based line, and what the second and third stack lines add. */
  datatype Location = Location(
    filePath: string,
    line: nat,
    column: Option<nat>,
    length: Option<nat>,
    lineText: Option<string>)

  /** A `RunError`: an `Error` subclass with an optional location. */
  datatype RunError = RunError(
    name: string,
    message: string,
    stack: Option<string>,
    cause: Option<Value>,
    location: Option<Location>)

  /** The `name` a `RunError` inherits from `Error.prototype`. */
  const DefaultName: string := "Error"

  /** The lines of the stack text, `''` when there is none. */
  function StackLines(stack: Option<string>): seq<string> {
    SplitOn(stack.GetOr(""), '\n')
  }

  /**
   * The caret run of the third line: its 1-based start column and its
   * length, both absent when the line does not end in `^`.
   */
  function Caret(errorText: string): (r: (Option<nat>, Option<nat>))
    ensures r.0.Some? <==> exists k :: CaretsAt(errorText, k)
    ensures r.0.Some? == r.1.Some?
    ensures r.0.Some? ==>
      var k := r.0.value - 1;
      CaretsAt(errorText, k) && (forall i :: 0 <= i < k ==> !CaretsAt(errorText, i)) &&
      r.1.value == |errorText| - k
  {
    match CaretMatch(errorText)
    case None => (None, None)
    case Some(k) => (Some(k + 1), Some(|errorText| - k))
  }

  /** `getErrorMessage(e)`. */
  function GetErrorMessage(e: Error): (r: RunError)
    ensures r.message == e.message && r.stack == e.stack
    ensures r.name == (if e.name != "" then e.name else DefaultName)
    ensures r.cause == (if Truthy(e.cause) then Some(e.cause) else None)
    ensures var first := StackLines(e.stack)[0];
      r.location.Some? <==> exists k :: ColonDigitsAt(first, k)
    ensures var first := StackLines(e.stack)[0];
      forall k :: ColonDigitsAt(first, k) ==>
        r.location.value.filePath == first[..k] && r.location.value.line == LineNumber(first, k)
    ensures r.location.Some? ==>
      var lineText := LineAt(StackLines(e.stack), 1);
      r.location.value.lineText == (if lineText != "" then Some(lineText) else None)
    ensures r.location.Some? ==>
      (r.location.value.column, r.location.value.length) == Caret(LineAt(StackLines(e.stack), 2))
  {
    var lines := StackLines(e.stack);
    var fileText, lineText, errorText := lines[0], LineAt(lines, 1), LineAt(lines, 2);
    var name := if e.name != "" then e.name else DefaultName;
    var cause := if Truthy(e.cause) then Some(e.cause) else None;
    var err := RunError(name, e.message, e.stack, cause, None);
    if fileText == "" then err
    else
      match LineMatch(fileText)
      case None => err
      case Some(k) =>
        var text := if lineText != "" then Some(lineText) else None;
        var (column, length) := if errorText != "" then Caret(errorText) else (None, None);
        err.(location := Some(Location(fileText[..k], LineNumber(fileText, k), column, length, text)))
  }

  /** No stack text, or an empty one, gives no location. */
  lemma EmptyStackNoLocation(e: Error)
    requires e.stack.None? || e.stack == Some("")
    ensures GetErrorMessage(e).location.None?
    ensures GetErrorMessage(e).message == e.message && GetErrorMessage(e).stack == e.stack
  {
    assert StackLines(e.stack) == [""];
  }

  /**
   * A syntax error on line 2 of `path`, whose source line is `const ab`
   * and whose third stack line marks `ab`: column 7, length 2.
   */
  lemma SyntaxErrorLocation(path: string, rest: string)
    requires '\n' !in path
    ensures var e := Error("SyntaxError", "Missing initializer in const declaration",
                           Some(path + ":2" + "\n" + "const ab" + "\n" + "      ^^" + "\n" + rest), Null);
      GetErrorMessage(e).location == Some(Location(path, 2, Some(7), Some(2), Some("const ab")))
  {
    var first, second, third := path + ":2", "const ab", "      ^^";
    assert '\n' !in first;
    ThreeLines(first, second, third, rest);
    LineTwo(path);
    assert CaretsAt(third, 6) && third[5] == ' ';
    CaretMatchAt(third, 6);
    assert Caret(third) == (Some(7), Some(2));
  }

  lemma LineTwo(path: string)
    ensures LineMatch(path + ":2") == Some(|path|)
    ensures (path + ":2")[..|path|] == path && LineNumber(path + ":2", |path|) == 2
  {
    var first := path + ":2";
    assert ColonDigitsAt(first, |path|);
    assert first[|path| + 1..] == "2";
    assert "2"[..0] == [];
    assert DecimalValue("2") == 2;
  }

  /** A caret run preceded by something else is where `/\^+$/` matches. */
  lemma CaretMatchAt(s: string, k: nat)
    requires CaretsAt(s, k) && (k == 0 || s[k - 1] != '^')
    ensures CaretMatch(s) == Some(k)
  {
    if k > 0 {
      assert s[k - 1] != '^';
    }
  }

  /** The first three lines of a stack text that has at least three line breaks. */
  lemma ThreeLines(a: string, b: string, c: string, rest: string)
    requires '\n' !in a && '\n' !in b && '\n' !in c
    ensures var lines := SplitOn(a + "\n" + b + "\n" + c + "\n" + rest, '\n');
      |lines| >= 3 && lines[0] == a && lines[1] == b && lines[2] == c
  {
    var tail := c + "\n" + rest;
    var mid := b + "\n" + tail;
    assert a + "\n" + b + "\n" + c + "\n" + rest == a + "\n" + mid;
    SplitOnFirst(a, '\n', mid);
    SplitOnFirst(b, '\n', tail);
    SplitOnFirst(c, '\n', rest);
  }

  // ----- src/node/san-box.ts -----

  /** The flat `RunError` record of the older sandbox. */
  datatype FlatRunError = FlatRunError(filePath: string, lineNumber: int, message: string, stack: string)

  /**
   * `getErrorMessage(e)` of the older sandbox: `''` and `-1` unless the
   * first stack line ends in `:N`.
   */
  function GetErrorMessageFlat(e: Error): (r: FlatRunError)
    ensures r.message == e.message && r.stack == e.stack.GetOr("")
    ensures var first := StackLines(e.stack)[0];
      (forall k :: !ColonDigitsAt(first, k)) ==> r.filePath == "" && r.lineNumber == -1
    ensures var first := StackLines(e.stack)[0];
      forall k :: ColonDigitsAt(first, k) ==> r.filePath == first[..k] && r.lineNumber == LineNumber(first, k)
  {
    var err := FlatRunError("", -1, e.message, e.stack.GetOr(""));
    var firstLine := SplitOn(err.stack, '\n')[0];
    if firstLine == "" then err
    else
      match LineMatch(firstLine)
      case None => err
      case Some(k) => err.(filePath := firstLine[..k], lineNumber := LineNumber(firstLine, k))
  }

  /** Both versions find the same file and line; the older one reports `''` and `-1` where the newer has no location. */
  lemma FlatAgrees(e: Error)
    ensures var r, f := GetErrorMessage(e), GetErrorMessageFlat(e);
      match r.location
      case Some(loc) => f.filePath == loc.filePath && f.lineNumber == loc.line
      case None => f.filePath == "" && f.lineNumber == -1
  {
  }
}
