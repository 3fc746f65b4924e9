/** Option and Result wrappers used throughout the model: a Go value that may be
    absent (a query that produced no scalar) and a Go `error` return. */
module Wrappers {

  datatype Option<+T> = None | Some(value: T) {

    /** The wrapped value, or `default` when there is none. */
    function GetOr(default: T): T {
      match this
      case Some(v) => v
      case None => default
    }
  }

  /** `Success(v)` is a nil error with result `v`; `Failure(e)` is a returned error. */
  datatype Result<+R, +E> = Success(value: R) | Failure(error: E)
}
