/** Failure-carrying datatypes shared by the model: a value that may be absent
    (Python's `None`) and a computation that may raise. */
module Wrappers {

  datatype Option<+T> = None | Some(value: T) {

    /** Python's `x or default` for an optional value. */
    function GetOr(default: T): T {
      match this
      case Some(v) => v
      case None => default
    }
  }

  datatype Result<+R, +E> = Success(value: R) | Failure(error: E)
}
