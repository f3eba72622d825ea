/** Failure-carrying result types used in place of Java's null returns and checked exceptions. */
module Wrappers {

  datatype Option<+T> = None | Some(value: T)

  datatype Result<+R, +E> = Success(value: R) | Failure(error: E)

  /** The outcome of a `void` Java method that may throw: it either passes or fails with an error. */
  datatype Outcome<+E> = Pass | Fail(error: E)
}
