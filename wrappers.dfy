/** Option and Result datatypes for absent values and error returns. */
module Wrappers {
  /** A value that may be absent: Go's nil pointer. */
  datatype Option<+T> = None | Some(value: T)

  /** A value or the error that prevented computing it: Go's (value, error) pair. */
  datatype Result<+T, +E> = Ok(value: T) | Err(error: E)
}
