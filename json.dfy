/** The JSON tree the engine works on (Gson's `JsonElement`): an object is a
    map from member names to values; member order is not modelled. Numbers
    are integers. */
module Json {
  datatype Json =
    | JNull
    | JBool(b: bool)
    | JNumber(n: int)
    | JString(s: string)
    | JArray(items: seq<Json>)
    | JObject(members: map<string, Json>)
}
