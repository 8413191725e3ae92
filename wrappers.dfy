/** Option and Result, the two failure-carrying shapes the model needs. */
module Wrappers {

  /** A value that may be absent (Rust's `Option`). */
  datatype Option<+T> = None | Some(value: T)

  /** A value or the reason it could not be produced. Used where the source
      aborts (an `unwrap` or an index out of range) instead of returning. */
  datatype Result<+T, +E> = Ok(value: T) | Err(error: E)
}
