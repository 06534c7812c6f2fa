/** The result of a call that may have none. */
module Wrappers {
  datatype Option<+T> = None | Some(value: T)
}
