/** The optional value used for the C null pointer: `None` stands for `NULL`. */
module Wrappers {
  datatype Option<+T> = None | Some(value: T)
}
