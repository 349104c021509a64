/** Small failure-carrying datatypes shared by the model. */
module Wrappers {

  datatype Option<+T> = None | Some(value: T)

  /** The outcome of a call that either returns a value or raises an exception with a message. */
  datatype Result<+R, +E> = Ok(value: R) | Err(error: E)
}
