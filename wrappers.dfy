/** Failure-carrying return values: the model's counterpart of Rust's `Option<T>`,
    `Result<T>` and `Result<()>`. */
module Wrappers {

  datatype Option<+T> = None | Some(value: T)

  datatype Result<+T, +E> = Ok(value: T) | Err(error: E)

  /** A `Result<()>`: success carries nothing. */
  datatype Outcome<+E> = Pass | Fail(error: E)
}
