/** The optional value used for "first index that matches" and for a file that may not open. */
module Wrappers {
  datatype Option<+T> = None | Some(value: T)
}
