/** Failure-aware results: the error taxonomy of the rewriter and the
    `([]byte, error)` pair Go returns, as a sum type. */
module Outcome {
  import opened Bytes

  datatype Option<+T> = None | Some(value: T)

  /** The ways `Include` fails. Errors carry the detail Go prints: the
      selector name, or the include target that could not be read. */
  datatype Error =
    | ParseError
    | ReadError(path: seq<byte>)
    | UnsupportedArgument(selector: seq<byte>)
    | UnsupportedFunction(selector: seq<byte>)
    | FormatError

  /** Go returns `nil` bytes with every error, so a failure holds no output. */
  datatype Result<+T> = Ok(value: T) | Fail(error: Error)
}
