/** Failure-carrying values used throughout the model. */
module Wrappers {

  /** A value that may be absent: a C# nullable reference. */
  datatype Option<+T> = None | Some(value: T) {
    function GetOr(default: T): T {
      match this
      case Some(v) => v
      case None => default
    }
  }

  /** The outcome of an operation that may throw: a value, or the message
      of the exception that propagates to the caller. */
  datatype Result<+T> = Success(value: T) | Failure(error: string)
}
