/** Failure-carrying datatypes shared by the whole model. */
module Wrappers {

  /** A value that may be absent (JavaScript `undefined`/`null`, a missing match, a failed parse). */
  datatype Option<+T> = None | Some(value: T) {
    function GetOr(default: T): T {
      match this
      case Some(v) => v
      case None => default
    }
  }

  /** The result of a JavaScript expression that either yields a value or throws. */
  datatype Js<+T> = Ok(value: T) | Throws
}
