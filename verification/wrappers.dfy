/** Option and Result, shared by the other modules. */
module Wrappers {

  /** A value that may be absent; Go's nil pointer or nil interface. */
  datatype Option<+T> = None | Some(value: T)

  /** A Go `(value, error)` pair in which exactly one side is meaningful. */
  datatype Result<+R, +E> = Success(value: R) | Failure(error: E)
}
