/** Option and Result types shared by every adapter of the model. */
module Wrappers {

  /** A value that may be absent (JavaScript's `undefined`). */
  datatype Option<+T> = None | Some(value: T)

  /** The outcome of an adapter call: the resolved value, or the message of
      the `Error` the call rejects with. */
  datatype Result<+T> = Ok(value: T) | Err(message: string)
}
