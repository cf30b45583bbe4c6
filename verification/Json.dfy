/** Parsed JSON documents. Numbers are integers: the modelled code never builds
    or compares a fraction. */
module Json {
  datatype Value =
    | Null
    | Bool(flag: bool)
    | Num(number: int)
    | Str(text: string)
    | Arr(items: seq<Value>)
    | Obj(members: map<string, Value>)
}
