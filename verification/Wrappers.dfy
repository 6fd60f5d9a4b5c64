/** Failure-aware results shared by the model. */
module Wrappers {

  datatype Option<+T> = None | Some(value: T)

  /** The value a call returns, or the error it raises. */
  datatype Result<+T, +E> = Ok(value: T) | Err(error: E)
}
