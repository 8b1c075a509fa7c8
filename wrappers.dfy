/** Option and Result values standing in for `null`/`undefined` and for thrown errors. */
module Wrappers {

  datatype Option<+T> = None | Some(value: T) {
    /** JavaScript's `x ?? d`. */
    function GetOr(default: T): T {
      match this
      case Some(v) => v
      case None => default
    }
  }

  /** An operation that either produced a value or failed with a message. */
  datatype Result<+T> = Ok(value: T) | Err(error: string)

  /** The empty value returned by operations that only succeed or fail. */
  datatype Unit = Unit
}
