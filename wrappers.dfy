/** Failure-carrying return types shared by the modules of the traffic ETL model. */
module Wrappers {

  /** A value that may be absent: Python's `None`, a missing JSON key, or NaN speed. */
  datatype Option<+T> = None | Some(value: T) {
    function GetOr(default: T): T
    {
      match this
      case Some(v) => v
      case None => default
    }
  }

  /** The outcome of an operation that can raise an uncaught exception in the source. */
  datatype Result<+R, +E> = Success(value: R) | Failure(error: E)
}
