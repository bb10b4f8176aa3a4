// Stock option and result types used by every module.

module Wrappers {

  datatype Option<+T> = None | Some(value: T)

  /** An operation that either yields a value or fails with a message, the
      way the JavaScript code returns or throws an `Error`. */
  datatype Result<+T> = Ok(value: T) | Err(message: string)
}
