/**
 * JSON values as the shell sees them after `json.loads`: objects become
 * dictionaries, so an object is a map from keys to values. Numbers are
 * modelled as integers.
 */
module Json {

  datatype Value =
    | JNull
    | JBool(b: bool)
    | JNum(n: int)
    | JStr(s: string)
    | JArr(items: seq<Value>)
    | JObj(fields: map<string, Value>)

  /** Python truthiness of a decoded value, as used by `x or y` and `if not x`. */
  predicate Truthy(v: Value)
  {
    match v
    case JNull => false
    case JBool(b) => b
    case JNum(n) => n != 0
    case JStr(s) => s != []
    case JArr(items) => items != []
    case JObj(fields) => fields != map[]
  }

  /** `d.get(key)` on a dictionary, with `None` read as JSON null. */
  function Get(fields: map<string, Value>, key: string): (r: Value)
    ensures key !in fields ==> r == JNull
    ensures key in fields ==> r == fields[key]
  {
    if key in fields then fields[key] else JNull
  }
}
