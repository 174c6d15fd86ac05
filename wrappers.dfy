/** Failure-carrying values used across the model. */
module Wrappers {

  /** A value that may be missing (Python's `None`, pandas' NaN/NaT). */
  datatype Option<+T> = None | Some(value: T)

  /** The outcome of an operation that may raise (`ValueError` in the source). */
  datatype Result<+T, +E> = Ok(value: T) | Err(error: E)
}
