/** JSON values as the library sees them; reading and printing their text stays uninterpreted. */
module Json {
  import opened Bytes

  datatype Json =
    | Null
    | Bool(b: bool)
    | Number(n: int)
    | Str(s: bytes)
    | Array(items: seq<Json>)
    | Object(fields: map<string, Json>)

  datatype JsonError = OutOfRange | TypeError

  datatype JsonText = JsonText(parse: bytes -> Option<Json>, dump: Json -> bytes) {
    /** Printing a value and reading it back is the identity, and the printed text is not empty. */
    ghost predicate RoundTrips(j: Json) {
      dump(j) != [] && parse(dump(j)) == Some(j)
    }
  }

  function Contains(j: Json, key: string): bool {
    j.Object? && key in j.fields
  }

  function At(j: Json, key: string): Result<Json, JsonError> {
    if !j.Object? then Err(TypeError)
    else if key !in j.fields then Err(OutOfRange)
    else Ok(j.fields[key])
  }

  /** j.at(key), converted to a string. */
  function StringAt(j: Json, key: string): Result<bytes, JsonError> {
    match At(j, key)
    case Err(e) => Err(e)
    case Ok(v) => if v.Str? then Ok(v.s) else Err(TypeError)
  }

  /** j[key] = v; null becomes an object first. */
  function Assign(j: Json, key: string, v: Json): Result<Json, JsonError> {
    match j
    case Null => Ok(Object(map[key := v]))
    case Object(fields) => Ok(Object(fields[key := v]))
    case _ => Err(TypeError)
  }

  /**
   What looking a member up by j[key] leaves behind: an object, or null read as an empty one, gets
   a null member under a key it does not have.
   */
  function AfterLookup(j: Json, key: string): (r: Json)
    ensures Contains(j, key) ==> r == j
  {
    match j
    case Null => Object(map[key := Null])
    case Object(fields) => if key in fields then j else Object(fields[key := Null])
    case _ => j
  }
}
