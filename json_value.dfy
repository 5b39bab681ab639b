/**
 * JSON values as they reach the server: a request body, or a document
 * fetched from another server. An absent key is simply missing from an
 * object's field map (JSON has no `undefined`).
 */
module JsonValue {

  datatype Json =
    | JNull
    | JBool(b: bool)
    | JNumber(n: real)
    | JString(s: string)
    | JArray(items: seq<Json>)
    | JObject(fields: map<string, Json>)
}
