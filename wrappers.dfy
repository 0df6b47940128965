/** Optional values and error-carrying results shared by every module. */
module Wrappers {

  /** A value that may be missing: a key absent from a dict, a `None` attribute. */
  datatype Option<+T> = None | Some(value: T) {
    /** Python's `d.get(key, default)`: the value if present, else the default. */
    function GetOr(default: T): T {
      match this
      case Some(v) => v
      case None => default
    }
  }

  /** The outcome of an operation that may raise: its value, or the error it raised. */
  datatype Result<+T, +E> = Ok(value: T) | Err(error: E)
}
