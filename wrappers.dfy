/** Option and Result values used throughout the model. */
module Wrappers {

  /** A value that may be absent (Python's `None`). */
  datatype Option<+T> = None | Some(value: T)

  /** The outcome of a computation that may raise: `Failure` carries the
      text of the exception. */
  datatype Result<+T, +E> = Success(value: T) | Failure(error: E)
}
