/** JSON values as `JSON.parse` gives them, with the keys of an object in no particular order. */
module Json {
  import opened Wrappers
  import opened JsText

  datatype Value =
    | Null
    | Bool(b: bool)
    | Number(n: real)
    | String(s: Text)
    | Array(items: seq<Value>)
    | Object(fields: map<Text, Value>)

  function Field(v: Value, key: Text): Option<Value> {
    if v.Object? && key in v.fields then Some(v.fields[key]) else None
  }
}
