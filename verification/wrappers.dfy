/** Failure-compatible wrappers shared by the other modules. */
module Wrappers {

  /** An optional value: Python's `x | None`. */
  datatype Option<+T> = None | Some(value: T)

  /** A value or an error: a call that either returns or reports a failure. */
  datatype Result<+R, +E> = Success(value: R) | Failure(error: E)
}
