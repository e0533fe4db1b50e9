/** Failure-compatible wrappers for the Go idioms `(value, error)` and "maybe nil". */
module Wrappers {

  /** A value that may be absent (a Go nil pointer or slice, or "not found"). */
  datatype Option<+T> = None | Some(value: T) {
    function GetOr(default: T): T {
      match this
      case Some(v) => v
      case None => default
    }
  }

  /** A Go `(value, error)` pair whose error is either nil (Ok) or not (Err). */
  datatype Result<+T, +E> = Ok(value: T) | Err(error: E)
}
