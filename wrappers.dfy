/** The optional value shared by both models: a Java null reference, a C++ null pointer. */
module Wrappers {
  datatype Option<T> = None | Some(value: T)
}
