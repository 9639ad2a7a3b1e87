/** Error values and the Option/Result wrappers the adapter's Go code expresses
    with `(value, error)` pairs. */
module Outcomes {

  datatype Option<T> = None | Some(value: T)

  /** The errors `client.go` returns. Driver and decoder messages are opaque. */
  datatype Error =
    | UnknownNameMatchType(nameCode: int)  // "unknown metric name match type %v"
    | UnknownMatchType(code: int)          // "unknown match type %v"
    | InvalidLabelsValue(typeName: string) // "invalid labels value %s"
    | DecodeFailed(reason: string)         // json.Unmarshal rejected the payload
    | Backend(message: string)             // the database driver reported a failure

  datatype Result<T> = Ok(value: T) | Err(error: Error)
}
