/** Option and Result, shared by the two models. */
module Wrappers {

  /** A value that may be absent: Kotlin's nullable types and JavaScript's `null`. */
  datatype Option<+T> = None | Some(value: T) {
    /** The value, or `default` when it is absent (Kotlin's `?:`). */
    function GetOr(default: T): T {
      match this
      case Some(v) => v
      case None => default
    }
  }

  /** The outcome of an operation that either returns a value or throws. */
  datatype Result<+R, +E> = Success(value: R) | Failure(error: E)
}
