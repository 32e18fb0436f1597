/** The optional value used for Python's "a value or None" results. */
module Wrappers {
  datatype Option<+T> = None | Some(value: T)
}
