/** Optional values and results that carry an error, used by every other module. */
module Wrappers {

  /** A value that may be absent (Go's `value, ok` pair). */
  datatype Option<+T> = None | Some(value: T)

  /** A computation that either succeeds with a value or fails with an error (Go's `value, err` pair). */
  datatype Result<+T, +E> = Ok(value: T) | Err(error: E)
}
