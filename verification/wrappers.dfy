/** Failure-carrying datatypes used for the program's `(value, err)` returns. */
module Wrappers {

  /** A value that may be absent (nil in the program). */
  datatype Option<+T> = None | Some(value: T)

  /** Either a value or the error that aborted the computation. */
  datatype Result<+T, +E> = Success(value: T) | Failure(error: E)
}
