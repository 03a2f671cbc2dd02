/** Failure-carrying result types used across the model. */
module Wrappers {

  /** A value that may be absent; `None` also stands for a C local that was never assigned. */
  datatype Option<+T> = None | Some(value: T)

  /** Either a computed value or the reason the computation was refused. */
  datatype Result<+R, +E> = Ok(value: R) | Err(error: E)
}
