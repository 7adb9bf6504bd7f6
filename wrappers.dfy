/** The optional value shared by the folder slots and the key parser. */
module Wrappers {
  datatype Option<T> = None | Some(value: T)
}
