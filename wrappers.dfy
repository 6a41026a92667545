/** The optional value used for nullable pointers and optional keys. */
module Wrappers {
  datatype Option<+T> = None | Some(value: T)
}
