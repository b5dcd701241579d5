// JSON values as serde_json keeps them.
module Json {
  import opened Doubles

  datatype Json =
    | Null
    | Bool(b: bool)
    | Num(n: Number)
    | Str(s: string)
    | Arr(items: seq<Json>)
    | Obj(fields: map<string, Json>)

  type Fields = map<string, Json>

  // The elements of an array entry, the members of an object entry; nothing
  // when the entry is missing or has another form.
  function Elements(f: Fields, key: string): seq<Json> {
    if key in f && f[key].Arr? then f[key].items else []
  }

  function Members(f: Fields, key: string): Fields {
    if key in f && f[key].Obj? then f[key].fields else map[]
  }
}
