/** A value that may be absent, used where the Python code returns -1 or None,
    or where a call may raise. */
module Wrappers {
  datatype Option<+T> = None | Some(value: T)
}
