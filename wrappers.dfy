/** Optional values and results with an error, as the source's `None`,
    JavaScript's `null`/`undefined` and Python exceptions that are caught. */
module Wrappers {

  datatype Option<+T> = None | Some(value: T) {
    function GetOr(default: T): T {
      match this
      case Some(v) => v
      case None => default
    }
  }

  datatype Result<+R, +E> = Success(value: R) | Failure(error: E)
}
