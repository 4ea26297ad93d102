/** The "not found" signal of removeAt, made explicit instead of JavaScript's `undefined`. */
module Wrappers {
  datatype Option<T> = None | Some(value: T)
}
