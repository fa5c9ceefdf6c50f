/** Failure-carrying datatypes shared by the whole model. */
module Wrappers {

  /** A value that may be absent (a Java null, or a missing JSON key). */
  datatype Option<+T> = None | Some(value: T)

  /** The result of an operation that either yields a value or raises an error. */
  datatype Result<+R, +E> = Success(value: R) | Failure(error: E)

  /** The result of an operation that yields nothing or raises an error. */
  datatype Outcome<+E> = Pass | Fail(error: E)
}
