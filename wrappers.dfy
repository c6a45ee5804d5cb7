/** Failure-compatible result types shared by the modules of the solver. */
module Wrappers {

  /** A value that may be absent; the model's stand-in for Python's `None`. */
  datatype Option<+T> = None | Some(value: T) {
    /** The wrapped value, or `default` when there is none. */
    function GetOr(default: T): T {
      match this
      case Some(v) => v
      case None => default
    }
  }

  /** The outcome of a request: a value, or the error the request reports. */
  datatype Result<+R, +E> = Success(value: R) | Failure(error: E)
}
