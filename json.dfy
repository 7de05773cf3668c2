/**
  The JSON values an element's parameters are given as (what `pl.from_json` returns for
  plain JSON). Numbers are integers here; see README.
*/
module Json {
  datatype Value =
    | Null
    | Bool(b: bool)
    | Num(n: int)
    | Str(s: string)
    | Arr(items: seq<Value>)
    | Obj(fields: seq<(string, Value)>)
}
