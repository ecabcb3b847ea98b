/**
 * The argument normaliser `standard` of `useFetch` (src/react/use-fetch.ts).
 * `useFetch(url, params?, depend?, immediate?)` is overloaded: a boolean
 * or an array may stand in any optional position, and `standard` sorts the
 * actual arguments into `[url, params, depend, immediate]`. How many
 * arguments were given is read off which optional ones are `undefined`.
 * Arguments are JSON-like values; `{}` and `[]` are the fresh empty object
 * and array the normaliser fills in.
 */
module UseFetch {

  import opened JsValue
  import opened Objects

  /** The `[url, params, depend, immediate]` tuple `standard` returns. */
  datatype Normalised = Normalised(url: string, params: Json, depend: Json, immediate: Json)

  const EmptyObject: Json := Obj([])
  const EmptyArray: Json := Arr([])
  const False: Json := Base(Bool(false))

  predicate IsBoolean(a: Json) {
    a.Base? && a.p.Bool?
  }

  predicate IsArray(a: Json) {
    a.Arr?
  }

  /** `standard(url, params, depend, immediate)`. */
  function Standard(url: string, params: Json, depend: Json, immediate: Json): (r: Normalised)
    ensures r.url == url
    ensures r.params != Undef && r.depend != Undef && r.immediate != Undef
    ensures params != Undef ==> (r.params == params || r.params == EmptyObject)
  {
    if params == Undef then
      Normalised(url, EmptyObject, EmptyArray, False)
    else if depend == Undef then
      if IsBoolean(params) then Normalised(url, EmptyObject, EmptyArray, params)
      else if IsArray(params) then Normalised(url, EmptyObject, params, False)
      else Normalised(url, params, EmptyArray, False)
    else if immediate == Undef then
      if IsArray(params) then Normalised(url, EmptyObject, params, depend)
      else if IsArray(depend) then Normalised(url, params, depend, False)
      else Normalised(url, params, EmptyArray, depend)
    else
      Normalised(url, params, depend, immediate)
  }

  // ----- The overloads of `UseFetchMethod` -----

  /**
   * One call through the typed interface: which of the seven signatures
   * is used, with its arguments. `params` is a plain object, `depend` an
   * array and `immediate` a boolean.
   */
  datatype Call =
    | UrlOnly
    | Immediate(immediate: bool)
    | Depend(depend: seq<Json>)
    | Params(params: seq<(Key, Json)>)
    | ParamsDepend(params: seq<(Key, Json)>, depend: seq<Json>)
    | ParamsImmediate(params: seq<(Key, Json)>, immediate: bool)
    | Full(params: seq<(Key, Json)>, depend: seq<Json>, immediate: bool)

  /** The positional arguments after `url` that a call passes, `undefined` where it passes none. */
  function Positional(c: Call): (Json, Json, Json) {
    match c
    case UrlOnly => (Undef, Undef, Undef)
    case Immediate(b) => (Base(Bool(b)), Undef, Undef)
    case Depend(d) => (Arr(d), Undef, Undef)
    case Params(p) => (Obj(p), Undef, Undef)
    case ParamsDepend(p, d) => (Obj(p), Arr(d), Undef)
    case ParamsImmediate(p, b) => (Obj(p), Base(Bool(b)), Undef)
    case Full(p, d, b) => (Obj(p), Arr(d), Base(Bool(b)))
  }

  /** What each overload documents: absent `params` and `depend` are empty, absent `immediate` is false. */
  function Intended(url: string, c: Call): Normalised {
    var params := if c.Params? || c.ParamsDepend? || c.ParamsImmediate? || c.Full? then c.params else [];
    var depend := if c.Depend? || c.ParamsDepend? || c.Full? then c.depend else [];
    var immediate := if c.Immediate? || c.ParamsImmediate? || c.Full? then c.immediate else false;
    Normalised(url, Obj(params), Arr(depend), Base(Bool(immediate)))
  }

  /** Every call through the typed interface is normalised to what its overload documents. */
  lemma StandardOverloads(url: string, c: Call)
    ensures var (p, d, i) := Positional(c); Standard(url, p, d, i) == Intended(url, c)
  {
  }

  /** A normalised tuple is a fixpoint: `standard` returns it unchanged. */
  lemma StandardIdempotent(url: string, params: Json, depend: Json, immediate: Json)
    ensures var r := Standard(url, params, depend, immediate);
      Standard(r.url, r.params, r.depend, r.immediate) == r
  {
  }

  /**
   * Arguments passed positionally: once one optional argument is missing,
   * so are the later ones.
   */
  predicate Positioned(params: Json, depend: Json, immediate: Json) {
    (params == Undef ==> depend == Undef) && (depend == Undef ==> immediate == Undef)
  }

  /**
   * `standard` only moves arguments: every argument passed ends up in one
   * of the three slots, later arguments never move in front of earlier
   * ones, and every slot holds a passed argument or its default
   * (`{}`, `[]`, `false`).
   */
  lemma StandardKeepsGivenArguments(url: string, params: Json, depend: Json, immediate: Json)
    requires Positioned(params, depend, immediate)
    ensures var r := Standard(url, params, depend, immediate);
      && (params != Undef ==> params in [r.params, r.depend, r.immediate])
      && (depend != Undef ==> depend in [r.depend, r.immediate])
      && (immediate != Undef ==> r.immediate == immediate)
      && (r.params == params || r.params == EmptyObject)
      && (r.depend == params || r.depend == depend || r.depend == EmptyArray)
      && (r.immediate == params || r.immediate == depend || r.immediate == immediate || r.immediate == False)
  {
  }
}
