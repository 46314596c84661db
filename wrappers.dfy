/** Optional values and error results shared by the modules of the model. */
module Wrappers {

  /** A JSON field that may be absent, or a search that may find nothing. */
  datatype Option<+T> = None | Some(value: T) {

    /** The carried value, or `default` when there is none (Python's `d.get(key, default)`). */
    function GetOr(default: T): T {
      match this
      case Some(v) => v
      case None => default
    }
  }

  /** The value an operation returns, or the exception it raises. */
  datatype Result<+R, +E> = Success(value: R) | Failure(error: E)
}
