/** Failure-carrying results used across the model. */
module Wrappers {

  datatype Option<+T> = None | Some(value: T)

  /** A computation that either produces a value or fails with a message,
      the way the editor's functions either return or throw an Error. */
  datatype Result<+T> = Ok(value: T) | Err(message: string)
}
