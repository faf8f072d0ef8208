/** A value that may be missing: Python's `None`, a missing dict key, a NULL column. */
module Wrappers {

  datatype Option<+T> = None | Some(value: T)
}
