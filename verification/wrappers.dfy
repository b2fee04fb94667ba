/** Failure-carrying wrappers used throughout the model for Python's `None` and exceptions. */
module Wrappers {

  /** A value that may be absent (Python's `X | None`). */
  datatype Option<+T> = None | Some(value: T)

  /** The outcome of an operation that may raise: its value, or the exception it raises. */
  datatype Result<+T, +E> = Success(value: T) | Failure(error: E)
}
