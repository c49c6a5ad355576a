/** Decoded JSON values, as the request body decoder and the database driver hand them over. */
module Json {

  /** A JSON value. Numbers are split into integers and floats as Python decodes them;
      floats are reals here, since no arithmetic is done on them. Nested objects are not modelled. */
  datatype Value =
    | Null
    | Bool(b: bool)
    | Int(i: int)
    | Float(f: real)
    | Str(s: string)
    | List(items: seq<Value>)

  /** A JSON object: a check document, or the body of an error response. */
  type Object = map<string, Value>
}
