/** A value as json.loads returns it. Numbers are kept as integers: the core
    only ever asks which kind of value it has. */
module Json {
  datatype Json =
    | JNull
    | JBool(b: bool)
    | JNumber(n: int)
    | JString(s: string)
    | JArray(items: seq<Json>)
    | JObject(fields: map<string, Json>)
}
