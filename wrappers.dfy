/** Failure-carrying values used for the exceptions the Python code raises. */
module Wrappers {

  /** A value that may be absent, such as the predecessor of a queue entry (`None` in Python). */
  datatype Option<+T> = None | Some(value: T)

  /** The result of an operation that either returns a value or raises. */
  datatype Result<+R, +E> = Success(value: R) | Failure(error: E)

  /** The result of an operation that returns nothing or raises. */
  datatype Outcome<+E> = Pass | Fail(error: E)
}
