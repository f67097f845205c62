/** The optional values and results used across the model. */
module Wrappers {

  /** A value that may be absent: Python's `None` versus a value. */
  datatype Option<+T> = None | Some(value: T)

  /** The outcome of a call that may raise: the returned value or the exception. */
  datatype Result<+T, +E> = Success(value: T) | Failure(error: E)
}
