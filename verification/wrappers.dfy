/** Failure-compatible wrappers shared by every component of the chat model. */
module Wrappers {

  /** An optional value: the model's rendering of a nullable / `undefined` field. */
  datatype Option<+T> = None | Some(value: T) {

    /** The value, or `default` when absent (JavaScript's `x ?? default`). */
    function GetOr(default: T): T {
      match this
      case Some(v) => v
      case None => default
    }
  }

  /** The outcome of a mutation: its value, or the error the mutation throws. */
  datatype Result<+T, +E> = Ok(value: T) | Err(error: E)
}
