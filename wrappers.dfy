/** Optional values and fallible results, as the Rust code uses `Option` and `Result<_, Error>`. */
module Wrappers {

  datatype Option<+T> = None | Some(value: T)

  /** The outcome of a synthesis step: a value, or a synthesis error (halo2's `Error`). */
  datatype Result<+T> = Ok(value: T) | Err
}
