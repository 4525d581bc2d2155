/** A value that may be missing: a null pointer, or a NULL column. */
module Wrappers {
  datatype Option<+T> = None | Some(value: T)
}
