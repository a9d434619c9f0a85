/** A parsed JSON value, as the agent reads one off an acknowledgement or off its own state file. */
module Json {
  import opened Options

  /** `Overflow` is a literal such as 1e999, which parses to a number that is not finite. */
  datatype Json =
    | Null
    | Bool(b: bool)
    | Num(n: real)
    | Overflow
    | Str(s: string)
    | Arr(items: seq<Json>)
    | Obj(fields: map<string, Json>)

  /** A named property: absent on everything that is not an object carrying it. */
  function Field(j: Json, key: string): Option<Json> {
    if j.Obj? && key in j.fields then Some(j.fields[key]) else None
  }
}
