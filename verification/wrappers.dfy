/** Failure-carrying result types shared by every module of the model. */
module Wrappers {

  /** A value that may be absent; Python's `None` is `None` here. */
  datatype Option<+T> = None | Some(value: T) {

    function GetOr(default: T): T {
      match this
      case Some(v) => v
      case None => default
    }
  }

  /** The outcome of a Python call that may raise: `Raised` names the exception. */
  datatype Result<+T> = Ok(value: T) | Raised(error: string)
}
