/** Option and Result, the two failure-carrying shapes the model uses. */
module Wrappers {

  /** A value that may be absent: SQL NULL, Python None. */
  datatype Option<+T> = None | Some(value: T)

  /** A successful value or an error message. */
  datatype Result<+T, +E> = Ok(value: T) | Err(error: E)
}
