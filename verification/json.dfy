/** JSON values as JavaScript sees them after `JSON.parse`, with the truthiness the source's
    `!value`, `value || null` and `value ?? fallback` tests read. Numbers are integers here. */
module Json {
  import opened Wrappers
  import opened Text

  datatype Json =
    | JNull
    | JBool(b: bool)
    | JNum(n: int)
    | JStr(s: String)
    | JArr(items: seq<Json>)
    | JObj(fields: map<String, Json>)

  /** A property read `v[key]`: `None` is `undefined`. Only objects have the properties the
      source reads; on arrays, strings and scalars they are `undefined`. */
  function Get(v: Json, key: String): (r: Option<Json>)
    ensures r.Some? <==> v.JObj? && key in v.fields
    ensures r.Some? ==> r.value == v.fields[key]
  {
    if v.JObj? && key in v.fields then Some(v.fields[key]) else None
  }

  /** JavaScript truthiness of a defined value: `null`, `false`, `0` and `""` are falsy. */
  predicate Truthy(v: Json) {
    match v
    case JNull => false
    case JBool(b) => b
    case JNum(n) => n != 0
    case JStr(s) => s != []
    case JArr(_) => true
    case JObj(_) => true
  }

  /** Truthiness of a property read: `undefined` is falsy. */
  predicate Present(v: Option<Json>) {
    v.Some? && Truthy(v.value)
  }

  /** `v || null` */
  function OrNull(v: Option<Json>): (r: Json)
    ensures r == JNull <==> !Present(v) || v.value == JNull
    ensures Present(v) ==> r == v.value
  {
    if Present(v) then v.value else JNull
  }

  /** `v ?? fallback`: only `undefined` and `null` are replaced, so `false`, `0` and `""` stay. */
  function OrDefault(v: Option<Json>, fallback: Json): (r: Json)
    ensures v.None? || v.value == JNull ==> r == fallback
    ensures v.Some? && v.value != JNull ==> r == v.value
  {
    if v.Some? && v.value != JNull then v.value else fallback
  }

  /** `||` keeps every truthy value that `??` keeps, and replaces more. */
  lemma OrNullWithinOrDefault(v: Option<Json>)
    ensures Present(v) ==> OrNull(v) == OrDefault(v, JNull)
    ensures OrDefault(v, JNull) == JNull ==> OrNull(v) == JNull
  {
  }
}
