/** The optional result the engine returns from lookups and point mutations. */
module Wrappers {

  /** Rust's `Option<T>`: `None` signals "not found". */
  datatype Option<+T> = None | Some(value: T)
}
