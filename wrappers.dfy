/** Optional values, results and the exceptions the AWS helper layer raises. */
module Wrappers {

  datatype Option<+T> = None | Some(value: T) {
    /** Python's `x or default` for an optional value. */
    function GetOr(default: T): T {
      match this
      case Some(v) => v
      case None => default
    }
  }

  /** The Python exceptions that escape the helper layer, by class. */
  datatype Error =
    | ValueError(message: string)
    | FileNotFoundError(message: string)
    | NotADirectoryError(message: string)
    | KeyError(key: string)
    | AttributeError(name: string)
    | StopIteration

  /** A value, or the exception raised instead of returning it. */
  datatype Result<+T> = Ok(value: T) | Err(error: Error)

  /** Completion of an operation that returns nothing (`None`) in the source. */
  datatype Status = Success | Failure(error: Error)
}
