/** The optional value that the pattern scan and the label reader return. */
module Wrappers {
  datatype Option<T> = None | Some(value: T)
}
