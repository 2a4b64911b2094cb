/** Failure-carrying values shared by the other modules. */
module Wrappers {

  /** A value that JavaScript would hold as `T | undefined`. */
  datatype Option<+T> = None | Some(value: T)

  /** The outcome of an operation whose original can throw. */
  datatype Result<+T, +E> = Success(value: T) | Failure(error: E)
}
