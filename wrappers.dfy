/** Option and Result values for the partial operations of the model. */
module Wrappers {

  datatype Option<+T> = None | Some(value: T)

  /** The outcome of an operation that can fail: a value, or the failure it raises. */
  datatype Result<+T, +E> = Ok(value: T) | Err(error: E)
}
