/**
 * The class-attribute helpers `add`/`remove` of `src/web/class-name.ts` and
 * `addClassName`/`removeClassName` of `packages/utils/src/web/class-name.ts`,
 * which are the same code. An element is abstracted as its `class`
 * attribute, `None` when it has none; each operation returns the attribute
 * after the call (unchanged when the function returns early).
 */
module ClassName {

  import opened Wrappers
  import opened Seqs
  import opened Text

  /** `(el.getAttribute('class') ?? '').split(/\s+/)`. */
  function Tokens(attr: Option<string>): seq<string> {
    SplitWs(attr.GetOr(""))
  }

  /** The class names a browser reads from the attribute. */
  function Classes(attr: Option<string>): seq<string> {
    Words(attr.GetOr(""))
  }

  /** `add(el, name)` / `addClassName(el, name)`. */
  function Add(attr: Option<string>, name: string): (r: Option<string>)
    ensures Classes(r) == Classes(attr) + (if Trim(name) in Tokens(attr) then [] else Words(name))
    ensures Trim(name) in Tokens(attr) ==> r == attr
  {
    var t := Trim(name);
    var before := Tokens(attr);
    AddClasses(before, t, name, attr);
    if t in before then attr else Some(Join(before + [t], " "))
  }

  lemma AddClasses(before: seq<string>, t: string, name: string, attr: Option<string>)
    requires before == Tokens(attr) && t == Trim(name)
    ensures Words(Join(before + [t], " ")) == Classes(attr) + Words(name)
  {
    JoinWords(before + [t]);
    ConcatWordsAppend(before, [t]);
    assert ConcatWords([t]) == Words(t);
    ConcatWordsNoSpace(before);
    SplitWsNonEmpty(attr.GetOr(""));
    TrimWords(name);
  }

  /** `remove(el, name)` / `removeClassName(el, name)`. */
  function Remove(attr: Option<string>, name: string): (r: Option<string>)
    ensures Classes(r) == Without(Classes(attr), Trim(name))
    ensures Trim(name) !in Tokens(attr) ==> r == attr
  {
    var t := Trim(name);
    var before := Tokens(attr);
    RemoveClasses(before, t, attr);
    if t !in before then attr else Some(Join(Without(before, t), " "))
  }

  lemma RemoveClasses(before: seq<string>, t: string, attr: Option<string>)
    requires before == Tokens(attr)
    ensures Words(Join(Without(before, t), " ")) == Without(Classes(attr), t)
    ensures t !in before ==> Without(Classes(attr), t) == Classes(attr)
  {
    JoinWords(Without(before, t));
    ConcatWordsNoSpace(Without(before, t));
    SplitWsNonEmpty(attr.GetOr(""));
    NonEmptyWithout(before, t);
  }

  /** Dropping empty strings and dropping `t` commute. */
  lemma {:induction false} NonEmptyWithout(parts: seq<string>, t: string)
    ensures NonEmpty(Without(parts, t)) == Without(NonEmpty(parts), t)
    decreases |parts|
  {
    if parts != [] {
      NonEmptyWithout(parts[1..], t);
      var head := if parts[0] == t then [] else [parts[0]];
      NonEmptyAppend(head, Without(parts[1..], t));
      var kept := if parts[0] == [] then [] else [parts[0]];
      WithoutAppend(kept, NonEmpty(parts[1..]), t);
    }
  }

  /** After `add`, a name without inner whitespace is a token of the attribute. */
  lemma AddMakesToken(attr: Option<string>, name: string)
    requires NoSpace(Trim(name))
    ensures Trim(name) in Tokens(Add(attr, name))
  {
    var t := Trim(name);
    var before := Tokens(attr);
    if t !in before {
      var s := Join(before + [t], " ");
      if t == [] {
        JoinSnoc(before, t, " ");
        assert s == Join(before, " ") + " ";
        SplitWsShape(s);
        assert Trail(s) == [""];
      } else {
        WordsOfWord(t);
        TrimWords(name);
        assert Classes(Add(attr, name)) == Classes(attr) + [t];
        assert t in Classes(Add(attr, name));
        SplitWsMember(s, t);
      }
    }
  }

  /** `add` is idempotent for names without inner whitespace. */
  lemma AddIdempotent(attr: Option<string>, name: string)
    requires NoSpace(Trim(name))
    ensures Add(Add(attr, name), name) == Add(attr, name)
  {
    AddMakesToken(attr, name);
  }

  /** After `remove` of a non-blank name, no token equals it. */
  lemma RemoveDropsToken(attr: Option<string>, name: string)
    requires Trim(name) != []
    ensures Trim(name) !in Tokens(Remove(attr, name))
  {
    SplitWsMember(Remove(attr, name).GetOr(""), Trim(name));
  }

  /** `remove` of a non-blank name is idempotent. */
  lemma RemoveIdempotent(attr: Option<string>, name: string)
    requires Trim(name) != []
    ensures Remove(Remove(attr, name), name) == Remove(attr, name)
  {
    RemoveDropsToken(attr, name);
  }
}
