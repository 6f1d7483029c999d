/** Failure-carrying results shared by the whole model. */
module Wrappers {

  datatype Option<+T> = None | Some(value: T)

  /** The outcome of a pipeline step: a value, or the error that aborts the run. */
  datatype Result<+T, +E> = Ok(value: T) | Err(error: E)
}
