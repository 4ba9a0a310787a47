/** Rust's `Option`, as returned by the month conversions. */
module Wrappers {
  datatype Option<+T> = None | Some(value: T)
}
