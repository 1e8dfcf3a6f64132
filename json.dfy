/** JSON values as `serde_json::Value` presents them, with the accessors the modelled code uses.
    Parsing JSON text is not modelled: where the code parses, the parsed value is an input. */
module Json {
  import opened Wrappers

  /** Numbers are kept as integers: the modelled code never reads a number. */
  datatype Json =
    | Null
    | Bool(b: bool)
    | Num(n: int)
    | Str(s: string)
    | Arr(items: seq<Json>)
    | Obj(fields: map<string, Json>)

  /** `Value::get(key)`: the member `key` of an object; nothing for any other value. */
  function Get(j: Json, key: string): Option<Json> {
    if j.Obj? && key in j.fields then Some(j.fields[key]) else None
  }

  /** `Value::get(index)`: the element at `index` of an array; nothing for any other value. */
  function At(j: Json, index: nat): Option<Json> {
    if j.Arr? && index < |j.items| then Some(j.items[index]) else None
  }

  /** `Value::as_str`. */
  function AsStr(j: Json): Option<string> {
    if j.Str? then Some(j.s) else None
  }

  /** `Value::as_array`. */
  function AsArray(j: Json): Option<seq<Json>> {
    if j.Arr? then Some(j.items) else None
  }

  /** `value.get(key).map_or(None, |x| x.as_str())`: the member `key` when it is a string. */
  function StrAt(j: Json, key: string): Option<string> {
    match Get(j, key)
    case None => None
    case Some(v) => AsStr(v)
  }
}
