/**
 * The wrappers used in place of the exceptions and the nullable returns of
 * the modelled code.
 */
module Wrappers {

  /** A value that may be absent, standing for a nullable reference. */
  datatype Option<+T> = None | Some(value: T)

  /** Either a value or the error the modelled code would have thrown. */
  datatype Result<+T, +E> = Success(value: T) | Failure(error: E)

  /** The outcome of a guard that either passes or throws. */
  datatype Outcome<+E> = Pass | Fail(error: E)
}
