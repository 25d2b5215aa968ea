/** The already-decoded JSON tree the parser walks (kotlinx `JsonElement`). */
module Json {
  import opened Wrappers

  /**
   * A JSON value. An object is a map from member names to values, as
   * `JsonObject` is; a number keeps its literal text, which is what
   * `JsonPrimitive.content` gives back for it.
   */
  datatype Json =
    | JNull
    | JStr(s: string)
    | JNum(literal: string)
    | JBool(b: bool)
    | JArr(elems: seq<Json>)
    | JObj(fields: map<string, Json>)

  /** Raw response text as far as the JSON decoder is concerned: either a tree or a syntax error. */
  datatype JsonText = WellFormed(root: Json) | Malformed

  /** `JsonNull`, strings, numbers and booleans are `JsonPrimitive`s; arrays and objects are not. */
  predicate IsPrimitive(j: Json) {
    j.JNull? || j.JStr? || j.JNum? || j.JBool?
  }

  /**
   * `jsonPrimitive.contentOrNull`: the text of a primitive, `None` for `JsonNull`.
   * Only defined on primitives, because `jsonPrimitive` throws on anything else.
   */
  function ContentOrNull(j: Json): (r: Option<string>)
    requires IsPrimitive(j)
    ensures r.None? <==> j.JNull?
    ensures j.JStr? ==> r == Some(j.s)
  {
    match j
    case JNull => None
    case JStr(s) => Some(s)
    case JNum(lit) => Some(lit)
    case JBool(b) => Some(if b then "true" else "false")
  }
}
