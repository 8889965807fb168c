/** The optional value that Rust's `Option` carries through the codec and the dispatcher. */
module Wrappers {

  datatype Option<+T> = None | Some(value: T)

}
