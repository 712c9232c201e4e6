/** Optional values, results with an error value, and pass/fail outcomes:
    the model's stand-ins for C# null references and thrown exceptions. */
module Wrappers {

  /** A value that may be absent (a C# null reference). */
  datatype Option<+T> = None | Some(value: T) {
    /** C#'s `??`: the value, or `default` for null. */
    function GetOr(default: T): T {
      if Some? then value else default
    }
  }

  /** A computed value or the exception that would have been thrown instead. */
  datatype Result<+R, +E> = Success(value: R) | Failure(error: E)

  /** Completion of an operation that returns nothing, or the exception it threw. */
  datatype Outcome<+E> = Pass | Fail(error: E)
}
