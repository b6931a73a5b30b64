/** Optional values and results with an error, as used for Python's `None`
    returns and for exceptions that end an operation. */
module Wrappers {

  datatype Option<+T> = None | Some(value: T) {
    /** `x or default`, `dict.get(key, default)` */
    function GetOr(default: T): T {
      match this
      case Some(v) => v
      case None => default
    }
  }

  /** `Err` stands for an exception that propagates out of the operation. */
  datatype Result<+T, +E> = Ok(value: T) | Err(error: E)
}
