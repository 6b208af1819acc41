/** The optional value returned by the store's lookups (Rust's `Option`). */
module Wrappers {

  datatype Option<+T> = None | Some(value: T)
}
