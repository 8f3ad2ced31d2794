/** Failure-carrying result types used across the model. */
module Wrappers {

  datatype Option<+T> = None | Some(value: T)

  datatype Result<+R, +E> = Success(value: R) | Failure(error: E)

  /** A step that either completes or stops with an error, carrying no value. */
  datatype Outcome<+E> = Pass | Fail(error: E)
}
