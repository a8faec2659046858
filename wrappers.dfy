/** Failure-compatible wrappers shared by every module of the model. */
module Wrappers {

  /** A value that may be absent (Python's `None`). */
  datatype Option<+T> = None | Some(value: T) {
    /** The wrapped value, or `default` when absent. */
    function GetOr(default: T): T {
      match this
      case Some(v) => v
      case None => default
    }
  }

  /** The result of an operation that may raise: `Failure` carries the message of the exception. */
  datatype Result<+R> = Success(value: R) | Failure(error: string)

  /** The outcome of a check that either passes or raises with a message. */
  datatype Outcome = Pass | Fail(error: string)
}
