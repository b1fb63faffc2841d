/** Decoded JSON values, as Python's `json` module hands them to the tools. */
module Json {

  /** One decoded JSON value. Objects are `dict`s keyed by strings; numbers are
      kept as reals (the tools never look inside them). */
  datatype Json =
    | JNull
    | JBool(b: bool)
    | JNum(n: real)
    | JStr(s: string)
    | JArr(items: seq<Json>)
    | JObj(fields: map<string, Json>)

  /** A decoded JSON object. */
  type Obj = map<string, Json>

  /** Python truthiness of a decoded value: `None`, `False`, `0`, `""`, `[]`
      and `{}` are false, everything else is true. */
  predicate IsTruthy(j: Json) {
    match j
    case JNull => false
    case JBool(b) => b
    case JNum(n) => n != 0.0
    case JStr(s) => s != []
    case JArr(items) => items != []
    case JObj(fields) => fields != map[]
  }

  /** `obj.get(key)`: a missing key reads as `None`, which is what JSON `null`
      decodes to as well. */
  function Get(obj: Obj, key: string): (r: Json)
    ensures key !in obj ==> r == JNull
    ensures key in obj ==> r == obj[key]
  {
    if key in obj then obj[key] else JNull
  }

  /** `value or default` on a decoded value. */
  function OrElse(value: Json, default: Json): (r: Json)
    ensures IsTruthy(value) ==> r == value
    ensures !IsTruthy(value) ==> r == default
  {
    if IsTruthy(value) then value else default
  }
}
