/** Option and Result: the Python `None` return and raised exceptions made explicit. */
module Wrappers {

  /** A value that may be absent (Python's `None`). */
  datatype Option<+T> = None | Some(value: T) {

    /** The wrapped value, or `default` when absent (Python's `dict.get(key, default)`). */
    function GetOr(default: T): T
    {
      match this
      case Some(v) => v
      case None => default
    }
  }

  /** A computed value, or the error the computation raised. */
  datatype Result<+T, +E> = Ok(value: T) | Err(error: E)
}
