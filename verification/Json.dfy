/** JSON values as serde_json represents them. */
module Json {
  import opened Prelude

  const I64_MAX: int := 0x7fff_ffff_ffff_ffff
  const I64_MIN: int := -0x8000_0000_0000_0000

  /** The placeholder both redactors write. */
  const REDACTED := "[REDACTED]"

  /** Integers are kept apart from every other number, of which only the text matters. */
  datatype Json =
    | Null
    | Bool(b: bool)
    | Integer(n: int)
    | Float(text: string)
    | Str(s: string)
    | Array(items: seq<Json>)
    | Object(fields: map<string, Json>)

  function AsStr(v: Json): Option<string> {
    if v.Str? then Some(v.s) else None
  }

  /** `Value::as_i64`. */
  function AsI64(v: Json): Option<int> {
    if v.Integer? && I64_MIN <= v.n <= I64_MAX then Some(v.n) else None
  }

  function Get(v: Json, key: string): Option<Json> {
    if v.Object? && key in v.fields then Some(v.fields[key]) else None
  }
}
