/** Optional values and results with an error, as the version bump uses them. */
module Wrappers {

  /** A value that may be missing (Python's `None`). */
  datatype Option<+T> = None | Some(value: T)

  /** The outcome of an operation that can raise: a value, or the error raised. */
  datatype Result<+T, +E> = Ok(value: T) | Err(error: E)
}
