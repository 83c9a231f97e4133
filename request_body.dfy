/** A JSON request body as the Flask handlers read it: `data.get(key)` is
    `None` both for an absent key and for JSON `null`, and a handler's
    `if not value` test accepts exactly the non-empty strings. Bodies whose
    values are numbers, booleans, lists or objects are not modelled. */
module RequestBody {

  datatype Value = Null | Str(s: string)

  type Json = map<string, Value>

  /** `data.get(key)`. */
  function Get(body: Json, key: string): Value {
    if key in body then body[key] else Null
  }

  /** `data.get(key, default)`: the default applies only to an absent key. */
  function GetOr(body: Json, key: string, default: string): Value {
    if key in body then body[key] else Str(default)
  }

  /** Python truthiness of the value. */
  predicate Truthy(v: Value) {
    v.Str? && v.s != []
  }
}
