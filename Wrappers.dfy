/** The optional value the extension's lookups return instead of JavaScript's null. */
module Wrappers {
  datatype Option<+T> = None | Some(value: T)
}
