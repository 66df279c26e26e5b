/** Failure-compatible result types shared by the parser modules. */
module Wrappers {

  /** A value that may be absent: a nil pointer or a failed foreign call in the Go code. */
  datatype Option<+T> = None | Some(value: T)

  /** Either a parsed value or the error that stopped parsing: Go's `(T, error)` pair. */
  datatype Result<+T, +E> = Success(value: T) | Failure(error: E)
}
