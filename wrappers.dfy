/** Optional values and error results shared by the other modules. */
module Wrappers {

  /** A value that may be absent: a selector that matched nothing, a missing attribute. */
  datatype Option<+T> = None | Some(value: T) {
    function GetOr(default: T): T {
      match this
      case Some(v) => v
      case None => default
    }
  }

  /** The outcome of an operation that may raise: `Err` carries the exception's message. */
  datatype Result<+T> = Ok(value: T) | Err(message: string)
}
