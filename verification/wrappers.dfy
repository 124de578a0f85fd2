/** Failure-compatible wrappers shared by the other modules. */
module Wrappers {

  /** A value that may be absent; `None` also plays the part of Python's `None`. */
  datatype Option<+T> = None | Some(value: T)

  /** The outcome of an operation that can raise: a value or the error it raised. */
  datatype Result<+R, +E> = Success(value: R) | Failure(error: E)
}
