/** Failure-carrying results used across the model. */
module Wrappers {

  /** A value that may be missing: Python's `None` or a raised `IndexError`. */
  datatype Option<+T> = None | Some(value: T)

  /** The outcome of an operation that can raise. */
  datatype Result<+R, +E> = Success(value: R) | Failure(error: E)
}
