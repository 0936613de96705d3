/** Failure-carrying wrappers shared by the model. */
module Wrappers {

  /** A value that may be absent (a Go nil, a missing map entry, no reply). */
  datatype Option<+T> = None | Some(value: T)

  /** A Go `(T, error)` pair where the error decides which half is meaningful. */
  datatype Result<+T, +E> = Ok(value: T) | Fail(error: E)
}
