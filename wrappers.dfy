/** The optional value used wherever the source catches an exception or gets nothing back. */
module Wrappers {
  datatype Option<+T> = None | Some(value: T)
}
