/** Optional values and results with an error case, used across the model. */
module Wrappers {

  /** A value that may be missing (PHP's null). */
  datatype Option<+T> = None | Some(value: T) {

    /** The carried value, or `default` when there is none (PHP's `??`). */
    function GetOr(default: T): T {
      match this
      case Some(v) => v
      case None => default
    }
  }

  /** A computation that either succeeds with a value or fails with an error (a thrown exception). */
  datatype Result<+T, +E> = Success(value: T) | Failure(error: E)
}
