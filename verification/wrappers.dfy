/** Option, Result and the thrown JavaScript `Error`, shared by every module. */
module Wrappers {

  /** A value that may be absent (`null`/`undefined` in the source). */
  datatype Option<+T> = None | Some(value: T)

  /** The object a JavaScript `throw new Error(message)` raises. */
  datatype Error = Error(message: string)

  /** The outcome of a call that either returns a value or throws an `Error`. */
  datatype Result<+T> = Ok(value: T) | Err(error: Error)
}
