// The optional value used for C's nullable pointers and "nothing written".
module Wrappers {
  datatype Option<+T> = None | Some(value: T)
}
