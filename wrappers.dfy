/** The optional value used where the Go source has a nil pointer or a "not found". */
module Wrappers {
  datatype Option<+T> = None | Some(value: T)
}
