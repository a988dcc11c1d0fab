/** Failure-compatible wrappers shared by every module of the model: a value
    that may be absent (Python's `None`) and a computation that may raise. */
module Common {

  /** A value or Python's `None`. */
  datatype Option<+T> = None | Some(value: T) {

    /** Returns the wrapped value, or `default` for `None`. */
    function GetOr(default: T): T {
      match this
      case Some(v) => v
      case None => default
    }
  }

  /** The outcome of a computation that either returns a value or raises. */
  datatype Result<+R, +E> = Ok(value: R) | Err(error: E)
}
