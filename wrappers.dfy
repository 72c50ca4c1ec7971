/* The optional value the models return where the program panics or has nothing to give. */
module Wrappers {
  datatype Option<T> = None | Some(value: T)
}
