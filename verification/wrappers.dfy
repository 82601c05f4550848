/** Option and Result datatypes shared by the rest of the model. */
module Wrappers {

  /** An optional value: the regex engine's `Option<Match>`. */
  datatype Option<+T> = None | Some(value: T)

  /** Rust's `Result<T, E>`: a value or an error carried back to the caller. */
  datatype Result<+T, +E> = Success(value: T) | Failure(error: E)
}
