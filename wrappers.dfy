/** Failure-compatible wrappers used by the ABI layer. */
module Wrappers {

  /** A value that may be missing, as `find` returns `undefined` when nothing matches. */
  datatype Option<+T> = None | Some(value: T)

  /** The outcome of an operation that may throw: either its value or the error it raised. */
  datatype Result<+T, +E> = Ok(value: T) | Err(error: E)
}
