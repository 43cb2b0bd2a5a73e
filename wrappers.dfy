/** The optional value that stands for JavaScript's `undefined` result. */
module Wrappers {

  datatype Option<+T> = None | Some(value: T)
}
