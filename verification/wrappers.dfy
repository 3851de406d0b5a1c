/** Option and Result, shared by every layer. */
module Wrappers {

  /** A value that may be absent: a Go pointer that may be nil, or a parse that may fail. */
  datatype Option<+T> = None | Some(value: T)

  /** A Go `(value, error)` pair in which exactly one side is meaningful. */
  datatype Result<+T, +E> = Ok(value: T) | Err(error: E)
}
