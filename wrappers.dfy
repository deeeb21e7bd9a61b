/** Failure-compatible wrappers used throughout the model. */
module Wrappers {

  /** A value that may be missing: an element the page does not have, a request that failed. */
  datatype Option<+T> = None | Some(value: T)

  /** The outcome of an operation that can raise: a value or the error it raised. */
  datatype Result<+T, +E> = Ok(value: T) | Err(error: E)
}
