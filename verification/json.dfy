/** The value space of `JSON.parse`, with the JavaScript truthiness and property access the
    application applies to parsed values. The parser itself is not modelled: callers receive it
    as a function `string -> Option<Json>`, `None` standing for a thrown `SyntaxError`. */
module Json {
  import opened Wrappers

  datatype Json =
    | JNull
    | JBool(b: bool)
    | JNumber(n: real)
    | JString(str: string)
    | JArray(items: seq<Json>)
    | JObject(fields: map<string, Json>)

  /** JavaScript truthiness of a parsed value (`null`, `false`, `0` and `""` are falsy). */
  predicate Truthy(j: Json) {
    match j
    case JNull => false
    case JBool(b) => b
    case JNumber(n) => n != 0.0
    case JString(s) => |s| > 0
    case JArray(_) => true
    case JObject(_) => true
  }

  /** JavaScript `j.key` on a parsed value: only objects carry named properties; `None` is `undefined`. */
  function Member(j: Json, key: string): (r: Option<Json>)
    ensures r.Some? <==> j.JObject? && key in j.fields
  {
    if j.JObject? && key in j.fields then Some(j.fields[key]) else None
  }

  /** `j.key` when it holds a string, as `typeof j.key === 'string'` checks. */
  function StringMember(j: Json, key: string): (r: Option<string>)
    ensures r.Some? ==> Member(j, key) == Some(JString(r.value))
    ensures r.None? ==> Member(j, key).None? || !Member(j, key).value.JString?
  {
    match Member(j, key)
    case Some(JString(s)) => Some(s)
    case _ => None
  }

  /** The parsed payload of a response: the parser applied to the text, `None` on a syntax error. */
  type Parser = string -> Option<Json>
}
