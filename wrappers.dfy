/** Option and Result, the two shapes the editor's fallible operations return. */
module Wrappers {

  datatype Option<+T> = None | Some(value: T) {
    function GetOr(default: T): T {
      match this
      case Some(v) => v
      case None => default
    }
  }

  datatype Result<+T, +E> = Ok(value: T) | Err(error: E)

  /** The unit value returned by operations that only succeed or fail. */
  datatype Unit = Unit
}
