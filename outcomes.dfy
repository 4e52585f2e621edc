/** Failure-carrying values used across the installer model. */
module Outcomes {

  datatype Option<+T> = None | Some(value: T)

  /** The value of a call that either returns normally or throws. */
  datatype Result<+T, +E> = Success(value: T) | Failure(error: E)
}
