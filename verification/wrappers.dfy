/** Failure-carrying result types shared by the model. */
module Wrappers {

  /** Either a value or nothing; the model's counterpart of a pointer that may be NULL. */
  datatype Option<+T> = None | Some(value: T) {

    /** The value if present, `default` otherwise. */
    function GetOr(default: T): T {
      match this
      case Some(v) => v
      case None => default
    }
  }

  /** Either a value or a reason the operation failed. */
  datatype Result<+R, +E> = Success(value: R) | Failure(error: E)
}
