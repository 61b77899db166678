/** The optional value the statistics engine returns: Go's nil pointer is None. */
module Wrappers {
  datatype Option<+T> = None | Some(value: T)
}
