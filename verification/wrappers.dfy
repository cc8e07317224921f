/** Failure-compatible wrappers shared by every module of the model: `Option`
    stands for Python's `None`-or-value, `Result` for a call that either returns
    or raises. */
module Wrappers {

  datatype Option<+T> = None | Some(value: T) {

    /** The value, or `default` when there is none. */
    function GetOr(default: T): T {
      match this
      case Some(v) => v
      case None => default
    }
  }

  /** Python exceptions the model distinguishes. */
  datatype Error =
    | ValueError(msg: string)
    | ZeroDivisionError
    | UnknownTimeZoneError
    | DatabaseError
    | FileNotFoundError
    | IsADirectoryError
    | FileExistsError
    | KeyError

  datatype Result<+R> = Success(value: R) | Failure(error: Error)
}
