/** Option and Result, the failure-carrying values used across the model. */
module Wrappers {

  datatype Option<+T> = None | Some(value: T)

  /** The outcome of an operation that throws in the source: a value, or the reason it threw. */
  datatype Result<+T, +E> = Ok(value: T) | Err(error: E)
}
