/** Failure-carrying datatypes shared by the whole model. */
module Wrappers {

  /** A value that may be absent; `None` plays the role of Go's nil. */
  datatype Option<+T> = None | Some(value: T)

  /** The `(value, error)` pair of a Go function that either succeeds or fails. */
  datatype Result<+R, +E> = Success(value: R) | Failure(error: E)

  /** An error produced by the reader of a snippet file or by the directory walk. */
  datatype IoError = IoError(message: string)
}
