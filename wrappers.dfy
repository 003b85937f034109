/** Failure-compatible result types used for the exceptions of the modelled code. */
module Wrappers {

  datatype Option<+T> = None | Some(value: T)

  /** The outcome of an operation that either returns a value or throws. */
  datatype Result<+T, +E> = Success(value: T) | Failure(error: E)

  /** The outcome of an operation that returns nothing or throws. */
  datatype Outcome<+E> = Pass | Fail(error: E)
}
