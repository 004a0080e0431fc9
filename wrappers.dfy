/** Rust's `Option<T>`, the result of every defensive read of the list. */
module Wrappers {

  datatype Option<+T> = None | Some(value: T)

}
