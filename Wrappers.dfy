/** Failure-carrying result types used across the model. */
module Wrappers {

  /** A value that may be missing. */
  datatype Option<+T> = None | Some(value: T)

  /** A value, or the reason the process would stop instead. */
  datatype Result<+R, +E> = Success(value: R) | Failure(error: E)
}
