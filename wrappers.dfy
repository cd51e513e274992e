/** The optional value used for Python's `None` returns and raised errors. */
module Wrappers {
  datatype Option<+T> = None | Some(value: T)
}
