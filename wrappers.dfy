/** Optional values and results with an error, as used throughout the model. */
module Wrappers {

  /** A value that may be absent (Swift's `T?`). */
  datatype Option<+T> = None | Some(value: T) {

    /** The value, or `default` when absent (Swift's `x ?? default`). */
    function GetOr(default: T): T {
      match this
      case Some(v) => v
      case None => default
    }
  }

  /** The outcome of a computation that may throw. */
  datatype Result<+R, +E> = Success(value: R) | Failure(error: E)
}
