/** Failure-carrying results shared by every module of the model. */
module Wrappers {

  /** A value that may be absent: Go's nil pointer, a missing map entry. */
  datatype Option<+T> = None | Some(value: T)

  /** Go's `(value, error)` pair: either a value or the error that replaced it. */
  datatype Result<+T, +E> = Success(value: T) | Failure(error: E)
}
