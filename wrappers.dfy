/** Option and Result types used throughout the model. */
module Wrappers {

  /** A value that may be absent; in a table cell, None stands for a missing value (NaN). */
  datatype Option<+T> = None | Some(value: T)

  /** The outcome of a step that may raise an error in the script. */
  datatype Result<+T, +E> = Ok(value: T) | Err(error: E)
}
