/** Rust's `Option`, used for optional fields and arguments. */
module Wrappers {
  datatype Option<+T> = None | Some(value: T)
}
