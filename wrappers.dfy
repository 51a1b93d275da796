/** Option and Result types shared by the model's modules. */
module Wrappers {

  /** A value that may be missing (JavaScript's `null`/`undefined`). */
  datatype Option<+T> = None | Some(value: T)

  /** The outcome of an operation that either returns a value or throws. */
  datatype Result<+T> = Ok(value: T) | Err(message: string)
}
