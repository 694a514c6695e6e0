/** Option and Result: the Go code's nil pointers and `(value, error)` pairs. */
module Wrappers {

  /** A value that may be absent (a Go pointer that may be nil). */
  datatype Option<+T> = None | Some(value: T)

  /** A computation that either produced a value or failed with an error. */
  datatype Result<+T, +E> = Ok(value: T) | Err(error: E)
}
