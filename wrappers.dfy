/** Optional values and results shared by the three native modules. */
module Wrappers {

  datatype Option<+T> = None | Some(value: T) {

    /** The wrapped value, or `default` when there is none. */
    function GetOr(default: T): T {
      match this
      case Some(v) => v
      case None => default
    }
  }

  /** Success or a failure carrying an error description. */
  datatype Result<+R, +E> = Success(value: R) | Failure(error: E)
}
