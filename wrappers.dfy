/** The Option and Result datatypes used by every module. */
module Wrappers {

  datatype Option<+T> = None | Some(value: T)

  /** The outcome of one request: a value, or one of the errors the handler reports. */
  datatype Result<+T, +E> = Ok(value: T) | Err(error: E)
}
