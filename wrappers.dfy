/** Optional values and the outcome of a call into the hosted table store. */
module Wrappers {

  /** A value that may be absent: TypeScript's `T | null`. */
  datatype Option<+T> = None | Some(value: T) {

    /** `x ?? dflt` */
    function GetOr(dflt: T): T {
      match this
      case Some(v) => v
      case None => dflt
    }
  }

  /** What a failing store call throws: `message` is present exactly when the
      thrown value is an `Error` instance (so that `err.message` exists). */
  datatype Failure = Failure(message: Option<string>)

  /** A store call either resolves with a value or throws a `Failure`. */
  datatype Result<+T> = Ok(value: T) | Err(failure: Failure)
}
