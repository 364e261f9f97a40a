/** JSON values as Python reads them. */
module Json {
  import opened Common

  datatype Json =
    | Null
    | Bool(b: bool)
    | Int(n: int)
    | Float(value: Option<real>)  // None for NaN and the infinities, which Python also reads
    | Str(s: string)
    | Arr(items: seq<Json>)
    | Obj(fields: map<string, Json>, order: seq<string>)  // a dict and the order of its keys

  /** Python truth. */
  predicate Truthy(v: Json) {
    match v
    case Null => false
    case Bool(b) => b
    case Int(n) => n != 0
    case Float(x) => x != Some(0.0)
    case Str(s) => s != ""
    case Arr(items) => items != []
    case Obj(fields, _) => fields != map[]
  }

  /** `dict.get(key, default)` */
  function Get(fields: map<string, Json>, key: string, default: Json): Json {
    if key in fields then fields[key] else default
  }
}
