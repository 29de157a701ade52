/** Optional values and error results, standing in for Python's `None` and for a tool's
    error dictionary. */
module Wrappers {

  /** A value that may be absent: a dictionary key that is missing, or Python `None`. */
  datatype Option<+T> = None | Some(value: T) {

    /** The value, or `default` when absent (Python's `d.get(key, default)`). */
    function GetOr(default: T): T {
      match this
      case Some(v) => v
      case None => default
    }
  }

  /** Either the payload a tool returns or the error it reports. */
  datatype Result<+R, +E> = Success(value: R) | Failure(error: E)
}
