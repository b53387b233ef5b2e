/** Failure-carrying values used in place of the exceptions the program raises. */
module Wrappers {

  datatype Option<+T> = None | Some(value: T)

  /** A step that either passes or fails with an error and carries no value. */
  datatype Outcome<+E> = Pass | Fail(error: E)

  datatype Result<+T, +E> = Success(value: T) | Failure(error: E)
}
