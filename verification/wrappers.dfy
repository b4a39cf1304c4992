/** Optional values and success/failure results shared by the transcript and
    store modules. */
module Wrappers {

  /** A value that may be absent: Python's `None` versus a present value. */
  datatype Option<+T> = None | Some(value: T) {

    /** The present value, or `default` when absent (Python's `x or default`
        for the strings used here). */
    function GetOr(default: T): T {
      match this
      case Some(v) => v
      case None => default
    }
  }

  /** The outcome of an operation that can raise: a value or the error raised. */
  datatype Result<+T, +E> = Success(value: T) | Failure(error: E)
}
