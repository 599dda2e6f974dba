/** Option and Result, the two failure-carrying wrappers the model uses. */
module Wrappers {

  /** A value that may be absent: `undefined` or `null` in the pages. */
  datatype Option<+T> = None | Some(value: T)

  /** The outcome of an operation that may throw or reject its input. */
  datatype Result<+T, +E> = Ok(value: T) | Err(error: E)
}
