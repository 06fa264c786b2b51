/** The decoded JSON document the admission handler works on: a tree of
    string-keyed objects, arrays and scalars, as `json.Unmarshal` produces it
    into `interface{}` values. */
module Json {

  datatype Value =
    | JNull
    | JBool(b: bool)
    | JNum(n: int)
    | JStr(s: string)
    | JArr(items: seq<Value>)
    | JObj(fields: map<string, Value>)
}
