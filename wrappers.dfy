/** Failure-compatible wrappers: an optional value and a value-or-error. */
module Wrappers {

  datatype Option<+T> = None | Some(value: T) {
    function GetOr(default: T): T {
      match this
      case Some(v) => v
      case None => default
    }
  }

  /** A computation that either produced a value or threw; the error is the thrown value, stringified. */
  datatype Result<+R, +E> = Success(value: R) | Failure(error: E)
}
