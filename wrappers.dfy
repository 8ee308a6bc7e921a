/** Option and Result: the null / error returns of the source, as values. */
module Wrappers {

  /** A value that may be absent (JavaScript `null` / `undefined`). */
  datatype Option<+T> = None | Some(value: T) {
    function GetOr(default: T): T {
      match this
      case Some(v) => v
      case None => default
    }
  }

  /** The outcome of an operation that can be rejected with an error. */
  datatype Result<+R, +E> = Success(value: R) | Failure(error: E)
}
