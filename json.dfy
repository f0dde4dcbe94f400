/**
 * Decoded JSON values. The decoder (`json.loads`) and the encoder
 * (`json.dumps(..., indent=2, ensure_ascii=False)`) are not modelled: every
 * member that needs them takes them as function parameters.
 */
module Json {
  import opened Wrappers

  datatype Json =
    | JNull
    | JBool(b: bool)
    | JNumber(literal: string)
    | JString(s: string)
    | JArray(items: seq<Json>)
      /** The members in the order of the decoded dict. */
    | JObject(members: seq<(string, Json)>)

  /** The decoder returned a JSON object (`isinstance(data, dict)`). */
  predicate IsObject(decoded: Option<Json>) {
    decoded.Some? && decoded.value.JObject?
  }

  /**
   * Python's `str(v)` of a decoded value: a string is itself, `None`, `True`
   * and `False` are spelt out, and numbers, lists and dicts are rendered by
   * `renderOther` (Python's `repr` formatting is not modelled).
   */
  function Str(v: Json, renderOther: Json -> string): (r: string)
    ensures v.JString? ==> r == v.s
  {
    match v
    case JString(s) => s
    case JNull => "None"
    case JBool(b) => if b then "True" else "False"
    case _ => renderOther(v)
  }
}
