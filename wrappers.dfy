/** Failure-compatible result types shared by every module of the model. */
module Wrappers {

  datatype Option<+T> = None | Some(value: T)

  /** The outcome of an operation that can raise: `Err` carries the kind of exception. */
  datatype Result<+T, +E> = Ok(value: T) | Err(error: E)
}
