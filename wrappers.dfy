/** Success-or-failure wrappers shared by the workflow modules. */
module Wrappers {

  /** A value that may be absent. */
  datatype Option<+T> = None | Some(value: T)

  /** The outcome of an operation that either returns a value or throws an
      error whose `message` is the string carried by `Err`. */
  datatype Result<+T> = Ok(value: T) | Err(error: string)
}
