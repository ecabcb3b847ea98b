/**
 * `urlParamEncode` (packages/utils/src/web/http.ts): the query string of a
 * nested parameter object. Every defined base value becomes one `name=value`
 * pair, where the name is the top-level key followed by `[key]` for each
 * level below it (array elements use their index), and the value goes
 * through `encodeURIComponent`, which is the parameter `enc` here.
 */
module Http {

  import opened Wrappers
  import opened JsValue
  import opened Objects
  import Text
  import Seqs

  /** The error `val!.toString()` throws on `null`. */
  const NullError: string := "Cannot read properties of null (reading 'toString')"

  /**
   * The own `[key, value]` pairs `for (const key in from)` with
   * `hasOwnProperty` visits: array indices as decimal strings, object keys
   * in order.
   */
  function Entries(node: Json): (r: seq<(string, Json)>)
    ensures node.Base? ==> r == []
    ensures node.Arr? ==> |r| == |node.items| && forall i :: 0 <= i < |r| ==> r[i] == (NatToDecimal(i), node.items[i])
    ensures node.Obj? ==> |r| == |node.fields| && forall i :: 0 <= i < |r| ==> r[i] == (node.fields[i].0.name, node.fields[i].1)
    ensures forall i :: 0 <= i < |r| ==> r[i].1 < node
  {
    match node
    case Base(_) => []
    case Arr(xs) => seq(|xs|, i requires 0 <= i < |xs| => (NatToDecimal(i), xs[i]))
    case Obj(fs) => seq(|fs|, i requires 0 <= i < |fs| => (fs[i].0.name, fs[i].1))
  }

  /** The parameter name of `key` below prefix `pre`: `key` at the top, `pre[key]` below it. */
  function Name(pre: string, key: string): string {
    pre + (if |pre| > 0 then "[" + key + "]" else key)
  }

  /** `ans.substring(1)`: everything after the first character. */
  function DropFirst(s: string): string {
    if s == [] then [] else s[1..]
  }

  /** `objEncode(from, pre)`: the pieces of every own key, without the first `'&'`. */
  function ObjEncode(enc: string -> string, node: Json, pre: string): Result<string>
    decreases node, 1
  {
    match Pieces(enc, node, pre, 0)
    case Throws(m) => Throws(m)
    case Ok(ans) => Ok(DropFirst(ans))
  }

  /** The `ans += ...` of the loop, from the `i`-th own key on. */
  function Pieces(enc: string -> string, node: Json, pre: string, i: nat): Result<string>
    decreases node, 0, |Entries(node)| - i
  {
    var es := Entries(node);
    if i >= |es| then Ok("")
    else
      match Piece(enc, es[i].1, Name(pre, es[i].0))
      case Throws(m) => Throws(m)
      case Ok(p) =>
        match Pieces(enc, node, pre, i + 1)
        case Throws(m) => Throws(m)
        case Ok(rest) => Ok(p + rest)
  }

  /**
   * What one own key named `name` adds: nothing for an undefined value,
   * `&name=enc(value)` for a base value (whose `toString` throws on `null`),
   * and `&` followed by the nested encoding for an array or object.
   */
  function Piece(enc: string -> string, v: Json, name: string): Result<string>
    decreases v, 2
  {
    if v == Undef then Ok("")
    else if v.Base? then
      match PrimToString(v.p)
      case None => Throws(NullError)
      case Some(str) => Ok("&" + name + "=" + enc(str))
    else
      match ObjEncode(enc, v, name)
      case Throws(m) => Throws(m)
      case Ok(inner) => Ok("&" + inner)
  }

  /** `urlParamEncode(params)`: `'?'` and the pairs, or `''` when there are none. */
  function UrlParamEncode(enc: string -> string, params: Json): Result<string>
    requires !params.Base?
  {
    match ObjEncode(enc, params, "")
    case Throws(m) => Throws(m)
    case Ok(result) => Ok(if |result| > 0 then "?" + result else "")
  }

  // ----- The pairs a parameter object stands for -----

  /** A base value other than `undefined`. */
  type Defined = v: Prim | v != Undefined witness Null

  /** Every defined base value below `node`, with its full parameter name, in visiting order. */
  function Leaves(node: Json, pre: string): seq<(string, Defined)>
    decreases node, 1
  {
    LeavesFrom(node, pre, 0)
  }

  function LeavesFrom(node: Json, pre: string, i: nat): seq<(string, Defined)>
    decreases node, 0, |Entries(node)| - i
  {
    var es := Entries(node);
    if i >= |es| then [] else Group(es[i].1, Name(pre, es[i].0)) + LeavesFrom(node, pre, i + 1)
  }

  /** The leaves one own key named `name` contributes. */
  function Group(v: Json, name: string): seq<(string, Defined)>
    decreases v, 2
  {
    if v == Undef then [] else if v.Base? then [(name, v.p)] else Leaves(v, name)
  }

  /** Every leaf has a `toString`: none of them is `null`. */
  predicate Printable(leaves: seq<(string, Defined)>) {
    forall j :: 0 <= j < |leaves| ==> leaves[j].1 != Null
  }

  /** `name=enc(value)` for each leaf. */
  function Texts(enc: string -> string, leaves: seq<(string, Defined)>): (r: seq<string>)
    requires Printable(leaves)
    ensures |r| == |leaves|
    ensures forall j :: 0 <= j < |leaves| ==> r[j] == leaves[j].0 + "=" + enc(PrimToString(leaves[j].1).value)
  {
    seq(|leaves|, j requires 0 <= j < |leaves| => leaves[j].0 + "=" + enc(PrimToString(leaves[j].1).value))
  }

  /**
   * Every nested array or object reached below `pre` has a leaf of its own,
   * so none of them contributes an empty piece.
   */
  ghost predicate Filled(node: Json, pre: string)
    decreases node
  {
    var es := Entries(node);
    forall i :: 0 <= i < |es| && !es[i].1.Base? ==>
      Leaves(es[i].1, Name(pre, es[i].0)) != [] && Filled(es[i].1, Name(pre, es[i].0))
  }

  /** The pieces `'&' + text`, concatenated. */
  function Amp(texts: seq<string>): (r: string)
    ensures texts != [] ==> |r| > 0 && r[0] == '&'
  {
    if texts == [] then "" else "&" + texts[0] + Amp(texts[1..])
  }

  lemma {:induction false} AmpAppend(a: seq<string>, b: seq<string>)
    ensures Amp(a + b) == Amp(a) + Amp(b)
    decreases |a|
  {
    if a == [] {
      assert a + b == b;
    } else {
      assert (a + b)[1..] == a[1..] + b;
      AmpAppend(a[1..], b);
      assert Amp(a + b) == "&" + a[0] + (Amp(a[1..]) + Amp(b));
    }
  }

  /** Dropping the first `'&'` of the pieces is joining the texts with `'&'`. */
  lemma {:induction false} AmpJoin(texts: seq<string>)
    ensures DropFirst(Amp(texts)) == Text.Join(texts, "&")
    decreases |texts|
  {
    if |texts| > 1 {
      AmpJoin(texts[1..]);
      var rest := Amp(texts[1..]);
      assert rest == "&" + DropFirst(rest);
      assert Amp(texts) == "&" + (texts[0] + "&" + DropFirst(rest));
    } else if |texts| == 1 {
      assert Amp(texts) == "&" + texts[0];
    }
  }

  lemma PrintableAppend(a: seq<(string, Defined)>, b: seq<(string, Defined)>)
    ensures Printable(a + b) <==> Printable(a) && Printable(b)
  {
    if Printable(a) && Printable(b) {
      forall j | 0 <= j < |a + b|
        ensures (a + b)[j].1 != Null
      {
        if j >= |a| {
          assert (a + b)[j] == b[j - |a|];
        }
      }
    }
    if Printable(a + b) {
      forall j | 0 <= j < |a|
        ensures a[j].1 != Null
      {
        assert (a + b)[j] == a[j];
      }
      forall j | 0 <= j < |b|
        ensures b[j].1 != Null
      {
        assert (a + b)[|a| + j] == b[j];
      }
    }
  }

  lemma TextsAppend(enc: string -> string, a: seq<(string, Defined)>, b: seq<(string, Defined)>)
    requires Printable(a) && Printable(b)
    ensures Printable(a + b) && Texts(enc, a + b) == Texts(enc, a) + Texts(enc, b)
  {
    PrintableAppend(a, b);
    assert forall j :: 0 <= j < |b| ==> (a + b)[|a| + j] == b[j];
  }

  // ----- The encoder against the pairs -----

  /** The encoding throws exactly when some leaf is `null`. */
  lemma {:induction false} ObjEncodeOk(enc: string -> string, node: Json, pre: string)
    ensures ObjEncode(enc, node, pre).Ok? <==> Printable(Leaves(node, pre))
    decreases node, 1
  {
    PiecesOk(enc, node, pre, 0);
  }

  lemma {:induction false} PiecesOk(enc: string -> string, node: Json, pre: string, i: nat)
    ensures Pieces(enc, node, pre, i).Ok? <==> Printable(LeavesFrom(node, pre, i))
    decreases node, 0, |Entries(node)| - i
  {
    var es := Entries(node);
    if i < |es| {
      var name := Name(pre, es[i].0);
      PieceOk(enc, es[i].1, name);
      PiecesOk(enc, node, pre, i + 1);
      PrintableAppend(Group(es[i].1, name), LeavesFrom(node, pre, i + 1));
    }
  }

  lemma {:induction false} PieceOk(enc: string -> string, v: Json, name: string)
    ensures Piece(enc, v, name).Ok? <==> Printable(Group(v, name))
    decreases v, 2
  {
    if !v.Base? {
      ObjEncodeOk(enc, v, name);
    } else if v != Undef {
      assert Group(v, name)[0].1 == v.p;
    }
  }

  /**
   * When no leaf is `null` and no nested group is empty, the encoding is the
   * `name=enc(value)` texts of the leaves joined with `'&'`.
   */
  lemma {:induction false} ObjEncodeJoins(enc: string -> string, node: Json, pre: string)
    requires Printable(Leaves(node, pre)) && Filled(node, pre)
    ensures ObjEncode(enc, node, pre) == Ok(Text.Join(Texts(enc, Leaves(node, pre)), "&"))
    decreases node, 1
  {
    PiecesAmp(enc, node, pre, 0);
    AmpJoin(Texts(enc, Leaves(node, pre)));
  }

  lemma {:induction false} PiecesAmp(enc: string -> string, node: Json, pre: string, i: nat)
    requires Printable(LeavesFrom(node, pre, i)) && Filled(node, pre)
    ensures Pieces(enc, node, pre, i) == Ok(Amp(Texts(enc, LeavesFrom(node, pre, i))))
    decreases node, 0, |Entries(node)| - i
  {
    var es := Entries(node);
    if i < |es| {
      var name := Name(pre, es[i].0);
      var here := Group(es[i].1, name);
      var rest := LeavesFrom(node, pre, i + 1);
      PrintableAppend(here, rest);
      PieceAmp(enc, es[i].1, name, Filled(node, pre));
      PiecesAmp(enc, node, pre, i + 1);
      TextsAppend(enc, here, rest);
      AmpAppend(Texts(enc, here), Texts(enc, rest));
    }
  }

  lemma {:induction false} PieceAmp(enc: string -> string, v: Json, name: string, filled: bool)
    requires Printable(Group(v, name))
    requires !v.Base? ==> Group(v, name) != [] && Filled(v, name)
    ensures Piece(enc, v, name) == Ok(Amp(Texts(enc, Group(v, name))))
    decreases v, 2
  {
    var ts := Texts(enc, Group(v, name));
    if !v.Base? {
      ObjEncodeJoins(enc, v, name);
      AmpJoin(ts);
      assert Amp(ts) == "&" + DropFirst(Amp(ts));
    } else if v != Undef {
      assert Group(v, name) == [(name, v.p)];
      assert Group(v, name)[0].1 == v.p;
      var str := PrimToString(v.p).value;
      assert PrimToString(v.p) == Some(str);
      assert ts == [name + "=" + enc(str)];
      assert Amp(ts) == "&" + ts[0] + "";
      assert Piece(enc, v, name) == Ok("&" + name + "=" + enc(str));
      assert "&" + name + "=" + enc(str) == "&" + (name + "=" + enc(str)) + "";
    }
  }

  /**
   * `urlParamEncode` on a parameter object without `null` leaves or empty
   * groups: `''` when it has no defined leaf, otherwise `'?'` and the
   * `'&'`-joined `name=enc(value)` texts.
   */
  lemma UrlParamEncodeLeaves(enc: string -> string, params: Json)
    requires !params.Base? && Printable(Leaves(params, "")) && Filled(params, "")
    ensures var texts := Texts(enc, Leaves(params, ""));
      UrlParamEncode(enc, params) == Ok(if texts == [] then "" else "?" + Text.Join(texts, "&"))
  {
    var texts := Texts(enc, Leaves(params, ""));
    ObjEncodeJoins(enc, params, "");
    if texts != [] {
      JoinNotEmpty(texts, "&");
    }
  }

  lemma JoinNotEmpty(parts: seq<string>, sep: string)
    requires parts != [] && forall j :: 0 <= j < |parts| ==> parts[j] != []
    ensures Text.Join(parts, sep) != []
  {
    if |parts| > 1 {
      assert Text.Join(parts, sep) == parts[0] + sep + Text.Join(parts[1..], sep);
    }
  }

  /** `urlParamEncode` throws exactly when some defined leaf is `null`. */
  lemma UrlParamEncodeThrows(enc: string -> string, params: Json)
    requires !params.Base?
    ensures UrlParamEncode(enc, params).Throws? <==> exists j :: 0 <= j < |Leaves(params, "")| && Leaves(params, "")[j].1 == Null
  {
    ObjEncodeOk(enc, params, "");
  }

  // ----- Single cases -----

  /** A property whose value is `undefined` contributes nothing, wherever it stands. */
  lemma UndefinedSkipped(enc: string -> string, fs: seq<(Key, Json)>, k: Key, gs: seq<(Key, Json)>, pre: string)
    ensures ObjEncode(enc, Obj(fs + [(k, Undef)] + gs), pre) == ObjEncode(enc, Obj(fs + gs), pre)
  {
    PiecesBeforeUndefined(enc, fs, k, gs, pre, 0);
  }

  lemma {:induction false} PiecesBeforeUndefined(enc: string -> string, fs: seq<(Key, Json)>, k: Key, gs: seq<(Key, Json)>, pre: string, i: nat)
    requires i <= |fs|
    ensures Pieces(enc, Obj(fs + [(k, Undef)] + gs), pre, i) == Pieces(enc, Obj(fs + gs), pre, i)
    decreases |fs| - i
  {
    var ea := Entries(Obj(fs + [(k, Undef)] + gs));
    var eb := Entries(Obj(fs + gs));
    if i < |fs| {
      assert ea[i] == eb[i];
      PiecesBeforeUndefined(enc, fs, k, gs, pre, i + 1);
    } else {
      assert ea[i].1 == Undef;
      PiecesAfterUndefined(enc, fs, k, gs, pre, i);
      assert Piece(enc, ea[i].1, Name(pre, ea[i].0)) == Ok("");
      match Pieces(enc, Obj(fs + gs), pre, i)
      case Throws(_) =>
      case Ok(rest) => assert "" + rest == rest;
    }
  }

  lemma {:induction false} PiecesAfterUndefined(enc: string -> string, fs: seq<(Key, Json)>, k: Key, gs: seq<(Key, Json)>, pre: string, j: nat)
    requires |fs| <= j
    ensures Pieces(enc, Obj(fs + [(k, Undef)] + gs), pre, j + 1) == Pieces(enc, Obj(fs + gs), pre, j)
    decreases |fs| + |gs| - j
  {
    var ea := Entries(Obj(fs + [(k, Undef)] + gs));
    var eb := Entries(Obj(fs + gs));
    if j < |fs| + |gs| {
      assert ea[j + 1] == eb[j];
      PiecesAfterUndefined(enc, fs, k, gs, pre, j + 1);
    }
  }

  /**
   * One defined base value gives `name=enc(value)`, where the name is
   * `key` at the top and `pre[key]` below a prefix (NameShape).
   */
  lemma SingleValue(enc: string -> string, k: Key, v: Prim, pre: string)
    requires v != Undefined && v != Null
    ensures ObjEncode(enc, Obj([(k, Base(v))]), pre) == Ok(Name(pre, k.name) + "=" + enc(PrimToString(v).value))
  {
    var node := Obj([(k, Base(v))]);
    var text := Name(pre, k.name) + "=" + enc(PrimToString(v).value);
    assert Entries(node) == [(k.name, Base(v))];
    PieceBase(enc, v, Name(pre, k.name));
    PiecesOne(enc, node, pre, k.name, Base(v), "&" + text);
    DropAmp(text);
  }

  lemma PieceBase(enc: string -> string, v: Prim, name: string)
    requires v != Undefined && v != Null
    ensures Piece(enc, Base(v), name) == Ok("&" + (name + "=" + enc(PrimToString(v).value)))
  {
    var str := PrimToString(v).value;
    assert PrimToString(v) == Some(str);
    Seqs.AppendAssoc("&", name, "=");
    Seqs.AppendAssoc("&", name + "=", enc(str));
  }

  /** A key's parameter name is `key` at the top and `pre[key]` below a prefix. */
  lemma NameShape(pre: string, key: string)
    ensures Name(pre, key) == (if |pre| > 0 then pre + "[" + key + "]" else key)
  {
    if |pre| > 0 {
      Seqs.AppendAssoc(pre, "[" + key, "]");
      Seqs.AppendAssoc(pre, "[", key);
    } else {
      assert pre == "";
      assert "" + key == key;
    }
  }

  lemma DropAmp(t: string)
    ensures DropFirst("&" + t) == t
  {
    assert ("&" + t)[1..] == t;
  }

  lemma PiecesOne(enc: string -> string, node: Json, pre: string, key: string, val: Json, p: string)
    requires Entries(node) == [(key, val)] && Piece(enc, val, Name(pre, key)) == Ok(p)
    ensures ObjEncode(enc, node, pre) == Ok(DropFirst(p))
  {
    assert Pieces(enc, node, pre, 1) == Ok("");
    assert p + "" == p;
  }

  /** Array elements are named by their index below the array's own name. */
  lemma ArrayIndexNames(k: Key, v: Defined, w: Defined)
    requires k.name != ""
    ensures Leaves(Obj([(k, Arr([Base(v), Base(w)]))]), "") == [(k.name + "[0]", v), (k.name + "[1]", w)]
  {
    var arr := Arr([Base(v), Base(w)]);
    var params := Obj([(k, arr)]);
    var n0, n1 := k.name + "[0]", k.name + "[1]";
    assert Entries(params)[0] == (k.name, arr);
    assert NatToDecimal(0) == "0" && NatToDecimal(1) == "1";
    assert Entries(arr)[0] == ("0", Base(v)) && Entries(arr)[1] == ("1", Base(w));
    assert Name(k.name, "0") == n0 && Name(k.name, "1") == n1;
    assert LeavesFrom(arr, k.name, 2) == [];
    assert Group(Base(w), n1) == [(n1, w)];
    assert LeavesFrom(arr, k.name, 1) == [(n1, w)] + [];
    assert Group(Base(v), n0) == [(n0, v)];
    assert LeavesFrom(arr, k.name, 0) == [(n0, v)] + [(n1, w)];
    assert Group(arr, k.name) == [(n0, v), (n1, w)];
    assert LeavesFrom(params, "", 1) == [];
    assert Name("", k.name) == k.name;
    assert LeavesFrom(params, "", 0) == Group(arr, k.name) + [];
  }

  /**
   * A nested object with no defined leaf still adds its `'&'`: `{ a: {}, b: 1 }`
   * encodes to `"?&b=1"`, with an empty first pair.
   */
  lemma StrayAmpersand(enc: string -> string)
    ensures UrlParamEncode(enc, Obj([(Key("a"), Obj([])), (Key("b"), Base(Num(1)))])) == Ok("?&b=" + enc("1"))
  {
    var params := Obj([(Key("a"), Obj([])), (Key("b"), Base(Num(1)))]);
    var es := Entries(params);
    var tail := "&b=" + enc("1");
    assert es[0] == ("a", Obj([])) && es[1] == ("b", Base(Num(1)));
    assert Name("", "a") == "a" && Name("", "b") == "b";
    assert Pieces(enc, Obj([]), "a", 0) == Ok("");
    assert ObjEncode(enc, Obj([]), "a") == Ok("");
    assert Piece(enc, Obj([]), "a") == Ok("&" + "");
    assert IntToDecimal(1) == "1";
    assert PrimToString(Num(1)) == Some("1");
    assert Piece(enc, Base(Num(1)), "b") == Ok("&" + "b" + "=" + enc("1"));
    assert "&" + "b" + "=" + enc("1") == tail;
    assert Pieces(enc, params, "", 2) == Ok("");
    assert Pieces(enc, params, "", 1) == Ok(tail + "");
    assert Pieces(enc, params, "", 0) == Ok(("&" + "") + (tail + ""));
    assert ("&" + "") + (tail + "") == "&" + tail;
    assert ObjEncode(enc, params, "") == Ok(tail + "");
    assert "?" + (tail + "") == "?&b=" + enc("1");
  }
}
