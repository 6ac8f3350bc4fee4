/** Failure-carrying values used across the model. */
module Wrappers {

  /** A value that may be absent: a pandas NaN cell, a failed search. */
  datatype Option<+T> = None | Some(value: T)

  /** The outcome of an operation that can raise in the script. */
  datatype Result<+T, +E> = Success(value: T) | Failure(error: E)
}
