/** An optional value: None when the page has no such element or nothing is found. */
module Wrappers {
  datatype Option<+T> = None | Some(value: T)
}
