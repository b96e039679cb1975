/** Failure-carrying result types shared by the modules of this model. */
module Wrappers {

  /** A value that may be absent, as a JavaScript parameter left `undefined`. */
  datatype Option<+T> = None | Some(value: T) {
    /** The value, or `default` when absent (a JavaScript default parameter). */
    function GetOr(default: T): T {
      match this
      case Some(v) => v
      case None => default
    }
  }

  /** The outcome of an operation that may throw: a value or the error thrown. */
  datatype Result<+T, +E> = Ok(value: T) | Err(error: E)
}
