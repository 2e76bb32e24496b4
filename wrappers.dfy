/** Option stands for the C library's nullable pointer results: None is NULL. */
module Wrappers {
  datatype Option<+T> = None | Some(value: T)
}
