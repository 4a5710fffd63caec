/** The optional value used for JavaScript's nullable variables. */
module Wrappers {
  datatype Option<+T> = None | Some(value: T)
}
