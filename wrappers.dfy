/** Failure-carrying results used by every validator of the model. */
module Wrappers {

  datatype Option<+T> = None | Some(value: T)

  /** A value, or the violations that prevented producing it. */
  datatype Result<+R, +E> = Success(value: R) | Failure(error: E)

  /** A check that either passes or fails with an error report. */
  datatype Outcome<+E> = Pass | Fail(error: E)
}
