/** Failure-carrying results. A Rust `panic!` or a failed `unwrap()` in the
    modelled code becomes `None` / `Err(..)` here, so callers see the error path. */
module Wrappers {

  datatype Option<+T> = None | Some(value: T)

  datatype Result<+T, +E> = Ok(value: T) | Err(error: E)

  /** An unsigned 8-bit integer (Rust `u8`). */
  type u8 = x: int | 0 <= x < 256
}
