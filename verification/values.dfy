/** Value types shared by every part of the watcher: optional values, results
    that carry an error, and the JSON documents exchanged with the HTTP layer
    and the event store. */
module Values {

  /** A value that may be absent. */
  datatype Option<+T> = None | Some(value: T)

  /** A value or the reason it could not be computed. */
  datatype Result<+T, +E> = Success(value: T) | Failure(error: E)

  /** A JSON document. Numbers are integers: the watcher never does arithmetic
      on them, it only stores and forwards them. */
  datatype Json =
    | JNull
    | JBool(b: bool)
    | JNum(n: int)
    | JStr(s: string)
    | JArr(items: seq<Json>)
    | JObj(fields: map<string, Json>)
}
