/** Failure-carrying values: the model's stand-in for JavaScript's `null`/`undefined`
    and for thrown exceptions. */
module Wrappers {

  /** A value that may be absent (`null` or `undefined` in the source). */
  datatype Option<+T> = None | Some(value: T) {
    function GetOr(default: T): T {
      match this
      case Some(v) => v
      case None => default
    }
  }

  /** The outcome of an operation that either returns a value or throws an error
      carrying a message. */
  datatype Result<+T> = Ok(value: T) | Err(error: string)

  /** The outcome of an operation that returns a value or throws an error of a specific class. */
  datatype Fallible<+T, +E> = Success(value: T) | Failure(error: E)

  /** The outcome of an operation that returns nothing but may throw. */
  datatype Outcome = Pass | Fail(error: string)

  /** A value thrown by foreign code: an `Error` object with a message, or anything else. */
  datatype Thrown = ErrorObject(message: string) | NonError
}
