/** JSON values as `JSON.parse` produces them and `JSON.stringify` consumes them. */
module JsonData {

  datatype Json =
    | JNull
    | JBool(b: bool)
    | JNumber(n: int)
    | JString(s: string)
    | JArray(items: seq<Json>)
    | JObject(fields: map<string, Json>)
}
