/** The usual optional value: an element that may be absent, a file that may be unreadable. */
module Wrappers {
  datatype Option<+T> = None | Some(value: T)
}
