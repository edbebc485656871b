/** The optional value shared by the tags database and the record storages
    (Rust's `Option`). */
module Wrappers {
  datatype Option<T> = None | Some(value: T)
}
