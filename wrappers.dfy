/** Option and Result, the two failure-carrying values the model uses. */
module Wrappers {

  /** A value that may be absent, as an optional field or `undefined` is in the application. */
  datatype Option<+T> = None | Some(value: T)

  /** The outcome of an operation that either produces a value or fails with an error. */
  datatype Result<+T, +E> = Ok(value: T) | Err(error: E)
}
