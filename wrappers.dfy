/** Failure-carrying values: an attribute that may be nil, a computation that may raise. */
module Wrappers {

  /** A value that may be absent (Ruby's nil, SQL's NULL). */
  datatype Option<+T> = None | Some(value: T)

  /** The outcome of a computation that may raise instead of returning. */
  datatype Result<+T, +E> = Ok(value: T) | Err(error: E)
}
