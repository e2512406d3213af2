/** Failure-carrying wrappers used throughout the model: `Option` stands for
    JavaScript's `undefined` result, `Result` for a call that either returns or
    throws. */
module Wrappers {

  datatype Option<+T> = None | Some(value: T) {

    /** The wrapped value, or `default` when there is none. */
    function GetOr(default: T): T {
      match this
      case Some(v) => v
      case None => default
    }
  }

  datatype Result<+R, +E> = Success(value: R) | Failure(error: E)
}
