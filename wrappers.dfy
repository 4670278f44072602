/** The optional value returned by a matcher that may fail at a position. */
module Wrappers {

  datatype Option<+T> = None | Some(value: T)
}
