/** Failure-carrying wrappers shared by every module of the model. */
module Wrappers {
  /** A value that may be absent: Python's `None` versus a present value. */
  datatype Option<+T> = None | Some(value: T) {
    function GetOr(default: T): T {
      match this
      case Some(v) => v
      case None => default
    }
  }

  /** The outcome of a Python computation that may raise: the value, or the
      name of the exception raised. */
  datatype Result<+T> = Success(value: T) | Failure(error: string)
}
