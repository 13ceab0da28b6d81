/** Failure-compatible wrappers: optional values, pass/fail outcomes and results. */
module Wrappers {

  /** A value that may be absent (JavaScript's `undefined`). */
  datatype Option<+T> = None | Some(value: T)

  /** The outcome of an operation that either completes or fails with an error. */
  datatype Outcome<+E> = Pass | Fail(error: E)

  /** Either a value or an error. */
  datatype Result<+R, +E> = Success(value: R) | Failure(error: E)
}
