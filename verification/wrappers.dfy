/** Failure-carrying result types shared by the other modules. */
module Wrappers {

  /** A value that may be absent, as Python's `Optional`. */
  datatype Option<+T> = None | Some(value: T)

  /** The outcome of an operation that may raise. */
  datatype Result<+T, +E> = Success(value: T) | Failure(error: E)
}
