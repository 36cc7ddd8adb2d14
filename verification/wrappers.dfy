/** Failure-compatible wrappers shared by the other modules. */
module Wrappers {

  /** A value that may be absent: PHP's `null` next to a string. */
  datatype Option<+T> = None | Some(value: T)

  /** The outcome of an operation that may throw. */
  datatype Result<+T, +E> = Success(value: T) | Failure(error: E)
}
