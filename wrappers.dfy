/** Failure-compatible results used to model the exceptions the plugin throws. */
module Wrappers {

  datatype Option<+T> = None | Some(value: T)

  /** A value, or the exception that was thrown instead of producing it. */
  datatype Result<+R, +E> = Success(value: R) | Failure(error: E)

  /** The outcome of a `void` PHP method: it returned, or it threw. */
  datatype Outcome<+E> = Pass | Fail(error: E)
}
