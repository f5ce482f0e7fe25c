/** Option, Result and Outcome: the success-or-failure values that stand in for
    JavaScript's `undefined` results and thrown errors throughout the model. */
module Wrappers {

  /** A value that may be absent (`undefined` or `null` on the JavaScript side). */
  datatype Option<+T> = None | Some(value: T)

  /** Either a computed value or the error an operation would have thrown. */
  datatype Result<+T, +E> = Success(value: T) | Failure(error: E)

  /** The outcome of a check that computes nothing: it passes or fails with an error. */
  datatype Outcome<+E> = Pass | Fail(error: E)
}
