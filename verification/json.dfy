/** JavaScript values as they appear in the report payload: the JSON value
    kinds plus `undefined`, which the front end can hold in memory but
    never serialises. Objects keep their entries in property order. */
module Json {

  datatype Json =
    | JUndefined
    | JNull
    | JBool(b: bool)
    | JNum(n: real)
    | JStr(s: string)
    | JArr(items: seq<Json>)
    | JObj(fields: seq<(string, Json)>)
}
