/** Decoded JSON values, as `json_decode($content, true)` hands them to the
    exception handler: JSON objects and JSON lists both become PHP arrays. */
module Json {

  datatype Option<+T> = None | Some(value: T)

  /** A decoded JSON value. Numbers keep PHP's split between integers and floats. */
  datatype Json =
    | JNull
    | JBool(b: bool)
    | JInt(i: int)
    | JFloat(f: real)
    | JString(s: string)
    | JArray(items: seq<Json>)
    | JObject(fields: map<string, Json>)
  {
    /** PHP's `is_array` on the decoded value: true for JSON objects and JSON lists. */
    predicate IsPhpArray() {
      JArray? || JObject?
    }
  }
}
