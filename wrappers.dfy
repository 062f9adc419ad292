/** Option and Result, the two failure-carrying datatypes the model uses. */
module Wrappers {

  /** A value that may be absent (Python's `None`). */
  datatype Option<+T> = None | Some(value: T)

  /** The outcome of a step that may raise: a value, or the error that aborts. */
  datatype Result<+R, +E> = Success(value: R) | Failure(error: E)
}
