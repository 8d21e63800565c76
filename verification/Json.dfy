/** JSON values with unique object names, and the text codec the adapter relies on. */
module Json {
  import opened Common

  /** The name under which both the stream and the registry give a model. */
  const MODEL := Ascii("model")

  datatype Num = PosInt(n: nat) | NegInt(magnitude: nat) | Float(bits: nat)

  /** Strings and object names are the UTF-8 octets of the decoded text. */
  datatype Value =
    | Null
    | Bool(flag: bool)
    | Number(num: Num)
    | String(text: Bytes)
    | Array(items: seq<Value>)
    | Object(fields: map<Bytes, Value>)

  /** `Value::get(key)`: only objects have fields. */
  function Get(v: Value, key: Bytes): Option<Value> {
    if v.Object? && key in v.fields then Some(v.fields[key]) else None
  }

  function AsText(v: Option<Value>): Option<Bytes> {
    if v.Some? && v.value.String? then Some(v.value.text) else None
  }

  function AsUnsigned(v: Option<Value>): Option<nat> {
    if v.Some? && v.value.Number? && v.value.num.PosInt? then Some(v.value.num.n) else None
  }

  /** The JSON parser (duplicate names refused) and the compact serialiser, as given functions. */
  datatype Codec = Codec(parse: Bytes -> Option<Value>, encode: Value -> Bytes)
}
