/** Option and Result: the error returns of the Go code as values. */
module Wrappers {

  datatype Option<+T> = None | Some(value: T)

  /** A value or an error, for Go's `(T, error)` pairs. */
  datatype Result<+T, +E> = Ok(value: T) | Err(error: E)
}
