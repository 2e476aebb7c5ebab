/** Failure-compatible result types shared by the storage and ledger modules. */
module Wrappers {

  /** Rust's `Option<T>`: an iterator step that may have no more items. */
  datatype Option<+T> = None | Some(value: T)

  /** Rust's `Result<T, E>`. */
  datatype Result<+T, +E> = Ok(value: T) | Err(error: E)
}
