/** The optional value used where the source has a value or nothing. */
module Wrappers {

  datatype Option<+T> = None | Some(value: T)
}
