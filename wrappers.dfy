/** Failure-carrying values used across the model. */
module Wrappers {

  /** A value that may be absent. */
  datatype Option<+T> = None | Some(value: T)

  /** Either a result or an error. */
  datatype Result<+R, +E> = Success(value: R) | Failure(error: E)
}
