/**
 * JSON values as the TypeScript and Python sides exchange them
 * (RFC 8259 values; the text syntax itself is not part of this model),
 * and the JavaScript reading rules the API route applies to them.
 */
module JsonValue {
  import opened Base

  datatype Json =
    | JNull
    | JBool(b: bool)
    | JNumber(n: real)
    | JString(s: string)
    | JArray(items: seq<Json>)
    | JObject(fields: map<string, Json>)

  /**
   * JavaScript truthiness of a property read: `undefined` (None), `null`,
   * `false`, `0` and `""` are falsy; every array and object, even an empty
   * one, is truthy.
   */
  predicate Truthy(v: Option<Json>) {
    match v
    case None => false
    case Some(j) =>
      match j
      case JNull => false
      case JBool(b) => b
      case JNumber(n) => n != 0.0
      case JString(s) => s != ""
      case JArray(_) => true
      case JObject(_) => true
  }

  /** `v.key` on a value that is not `null`: an object's own field, or `undefined` (None). */
  function Field(v: Json, key: string): Option<Json> {
    if v.JObject? && key in v.fields then Some(v.fields[key]) else None
  }

  /** `v?.key`: `undefined` when `v` is `undefined` or `null`, otherwise `v.key`. */
  function OptionalField(v: Option<Json>, key: string): Option<Json> {
    match v
    case None => None
    case Some(j) => if j.JNull? then None else Field(j, key)
  }

  /** An empty array is truthy, so `!x || !Array.isArray(x)` rejects exactly the non-arrays. */
  lemma ArraysAreTruthy(v: Option<Json>)
    ensures (Truthy(v) && v.Some? && v.value.JArray?) <==> (v.Some? && v.value.JArray?)
  {
  }
}
