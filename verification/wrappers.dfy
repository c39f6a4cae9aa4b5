/** Failure-compatible wrappers shared by every module of the model. */
module Wrappers {

  /** An optional value: `undefined`/`null` in the program become `None`. */
  datatype Option<+T> = None | Some(value: T) {
    function GetOr(default: T): T {
      match this
      case Some(v) => v
      case None => default
    }
  }

  /** A computation that either yields a value or fails with an error. */
  datatype Result<+R, +E> = Success(value: R) | Failure(error: E)
}
