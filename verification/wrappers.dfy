/** Failure-carrying datatypes shared by the poll store model. */
module Wrappers {

  /** A value that may be absent (a JavaScript `null`/`undefined`). */
  datatype Option<+T> = None | Some(value: T)

  /** The outcome of an operation that either succeeds with a value or reports an error. */
  datatype Result<+T, +E> = Ok(value: T) | Err(error: E)
}
