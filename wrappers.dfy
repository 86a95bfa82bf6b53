/** Option and Result datatypes: `null` returns and thrown exceptions of the Java code. */
module Wrappers {

  /** A value that may be absent (Java `null`). */
  datatype Option<+T> = None | Some(value: T)

  /** The value of a call, or the exception it throws. */
  datatype Result<+T, +E> = Success(value: T) | Failure(error: E)

  /** A call that returns nothing (Java `void`), or the exception it throws. */
  datatype Outcome<+E> = Pass | Fail(error: E)
}
