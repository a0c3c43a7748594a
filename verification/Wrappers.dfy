/** Failure-carrying wrappers shared by the modules of this model. */
module Wrappers {

  /** A value that may be absent. */
  datatype Option<+T> = None | Some(value: T)

  /** The value of a computation, or the error that ended it. */
  datatype Result<+T, +E> = Ok(value: T) | Err(error: E)
}
