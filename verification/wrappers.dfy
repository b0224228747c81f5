/** Option and Result, for JavaScript's null/undefined and for thrown errors. */
module Wrappers {

  /** A value that may be absent (JavaScript `null`). */
  datatype Option<+T> = None | Some(value: T)

  /** The outcome of an operation that either returns a value or throws. */
  datatype Result<+R, +E> = Success(value: R) | Failure(error: E)
}
