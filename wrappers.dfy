/** The optional value that the model uses for JavaScript's `undefined`. */
module Wrappers {
  datatype Option<T> = None | Some(value: T)
}
