/** The optional value used where a lookup of the clock can fail. */
module Wrappers {
  datatype Option<+T> = None | Some(value: T)
}
