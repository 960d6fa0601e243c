/** The optional result that `insert` and `get` return (Rust's `Option<V>`). */
module Wrappers {

  datatype Option<+T> = None | Some(value: T)

}
