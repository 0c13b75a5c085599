/** Option and Result, shared by the modules of the model. */
module Wrappers {

  /** A value that may be absent: JavaScript's `null`/`undefined` or a missing entry. */
  datatype Option<+T> = None | Some(value: T)

  /** The outcome of an operation that the source ends by returning or by throwing. */
  datatype Result<+T, +E> = Success(value: T) | Failure(error: E)
}
