/** The optional result of one step of the generator. */
module Wrappers {
  datatype Option<T> = None | Some(value: T)
}
