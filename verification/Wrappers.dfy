/** A value that may be absent: a null pointer, a -1 or a 0 in the sources. */
module Wrappers {
  datatype Option<T> = None | Some(value: T)
}
