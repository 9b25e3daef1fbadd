/**
 * The small JSON-like value that the catalog and overlay coders read and
 * write. Numbers and `null` are not modelled: the formats write neither,
 * and an input holding a `null` where `decodeIfPresent` would read it as
 * absent cannot be expressed.
 */
module Json {

  datatype Json =
    | JString(str: string)
    | JBool(b: bool)
    | JArray(elements: seq<Json>)
    | JObject(fields: map<string, Json>)

}
