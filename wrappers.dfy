/** The optional value used wherever the server can fail. */
module Wrappers {
  datatype Option<T> = None | Some(value: T)
}
