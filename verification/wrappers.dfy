/** Option and Result values used throughout the model in place of the
    source's null/undefined and thrown exceptions. */
module Wrappers {

  /** A value that may be absent (JavaScript null/undefined, PHP null). */
  datatype Option<+T> = None | Some(value: T) {

    /** The carried value, or `default` when there is none. */
    function GetOr(default: T): T {
      match this
      case Some(v) => v
      case None => default
    }
  }

  /** The outcome of an operation that can fail with an error value
      (the source throws an exception in the failure case). */
  datatype Result<+R, +E> = Ok(value: R) | Err(error: E)

  /** The outcome of a check that yields no value on success. */
  datatype Outcome<+E> = Pass | Fail(error: E)
}
