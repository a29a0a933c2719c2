/** A value that may be missing: a NULL pointer, npos, or an exception. */
module Wrappers {

  datatype Option<+T> = None | Some(value: T)
}
