/** The optional result the constructor of a packed date returns. */
module Wrappers {

  /** Either a value (`Some`) or the absence of one (`None`), as Rust's `Option`. */
  datatype Option<+T> = None | Some(value: T)
}
