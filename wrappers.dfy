/** The optional value used for the nullable back-reference and for lookups that can miss. */
module Wrappers {
  datatype Option<+T> = None | Some(value: T)
}
