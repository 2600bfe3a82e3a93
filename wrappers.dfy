/** Failure-carrying results shared by the modules of the scitra model. */
module Wrappers {

  /** A value that may be absent (Go's `(T, bool)` pairs). */
  datatype Option<+T> = None | Some(value: T)

  /** A value or an error (Go's `(T, error)` pairs). */
  datatype Result<+T, +E> = Success(value: T) | Failure(error: E)
}
