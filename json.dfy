/**
 * Decoded JSON values, as `resp.json()` hands them to the SDK, with the two bits of
 * Python semantics the SDK relies on: truthiness (`x or default`) and `dict.get`.
 */
module Json {

  datatype Json =
    | JNull
    | JBool(b: bool)
    | JNum(n: real)
    | JStr(s: string)
    | JArr(items: seq<Json>)
    | JObj(fields: map<string, Json>)

  /** Python truthiness: null, false, zero, "" and empty containers are falsy. */
  predicate Truthy(v: Json) {
    match v
    case JNull => false
    case JBool(b) => b
    case JNum(n) => n != 0.0
    case JStr(s) => s != ""
    case JArr(items) => items != []
    case JObj(fields) => fields != map[]
  }

  /** `fields.get(key)`: a missing key reads as `None`, i.e. null. */
  function Get(fields: map<string, Json>, key: string): Json {
    if key in fields then fields[key] else JNull
  }

  /** Python's `a or b` on two values. */
  function Or(a: Json, b: Json): Json {
    if Truthy(a) then a else b
  }
}
