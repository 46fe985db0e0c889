/** Optional values and results, standing for JavaScript's absent keys and thrown errors. */
module Wrappers {

  /** `None` stands for a key that is absent (`undefined`) or of the wrong type. */
  datatype Option<+T> = None | Some(value: T)

  /** A computation that either succeeds or fails with an error message. */
  datatype Result<+T, +E> = Ok(value: T) | Err(error: E)
}
