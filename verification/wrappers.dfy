/** Failure-carrying datatypes shared by the whole model.
    `Option` stands for a JavaScript value that may be `undefined` (an absent
    optional field, a missing dictionary entry); `Result` stands for a call
    that either returns a value or throws. */
module Wrappers {

  datatype Option<+T> = None | Some(value: T) {

    /** The value, or `default` when absent (the `x || default` and
        `x ?? default` idioms of the source when `x` is an object). */
    function GetOr(default: T): T {
      match this
      case Some(v) => v
      case None => default
    }
  }

  datatype Result<+T, +E> = Ok(value: T) | Err(error: E)
}
