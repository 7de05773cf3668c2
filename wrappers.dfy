/** Option and Result values used throughout the model. */
module Wrappers {

  datatype Option<T> = None | Some(value: T)

  /** The outcome of an operation that may fail with a message, as a raised ValueError does. */
  datatype Result<T> = Ok(value: T) | Err(message: string)
}
