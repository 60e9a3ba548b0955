/** Failure-carrying results, used for the exceptions the hub's role code raises. */
module Wrappers {

  datatype Option<+T> = None | Some(value: T) {
    function GetOr(default: T): T {
      match this
      case Some(v) => v
      case None => default
    }
  }

  /** The value an operation returns, or the exception it raises instead. */
  datatype Result<+R, +E> = Success(value: R) | Failure(error: E)

  /** For operations that return nothing on success. */
  datatype Outcome<+E> = Pass | Fail(error: E)
}
