/** Optional values and results with an error message, standing in for the
    TypeScript idioms `T | undefined` / `T | null` and `throw new Error(msg)`. */
module Wrappers {

  datatype Option<+T> = None | Some(value: T) {
    function GetOr(default: T): T {
      match this
      case Some(v) => v
      case None => default
    }
  }

  /** A call that either returns a value or throws an `Error` whose message is `error`. */
  datatype Result<+T> = Success(value: T) | Failure(error: string)
}
