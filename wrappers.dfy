/** The Option type, used for the Rust `Option` results of `split_once` and `find`. */
module Wrappers {

  datatype Option<+T> = None | Some(value: T)
}
