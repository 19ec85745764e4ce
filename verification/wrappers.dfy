/** Failure-carrying values shared by every layer of the model. */
module Wrappers {

  /** A value that may be absent: JavaScript `undefined`, Java and PHP `null`. */
  datatype Option<+T> = None | Some(value: T) {
    function GetOr(default: T): T {
      match this
      case Some(v) => v
      case None => default
    }
  }

  /** The outcome of an operation that either yields a value or fails with an error. */
  datatype Result<+T, +E> = Ok(value: T) | Err(error: E)
}
