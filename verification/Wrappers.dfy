/** A possibly absent value. */
module Wrappers {
  datatype Option<+T> = None | Some(value: T)
}
