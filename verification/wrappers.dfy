/** Optional values and results, used wherever the program returns `None`
    or raises. */
module Wrappers {

  /** A value that may be absent, as Python's `None`. */
  datatype Option<+T> = None | Some(value: T) {

    /** The value, or `default` when it is absent. */
    function GetOr(default: T): T {
      match this
      case Some(v) => v
      case None => default
    }
  }

  /** A computation that either succeeds or raises an exception with a message. */
  datatype Result<+R> = Ok(value: R) | Raised(message: string)
}
