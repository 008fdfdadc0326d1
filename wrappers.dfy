/** The optional value used where the Python code returns `None` or raises
    on a malformed input. */
module Wrappers {
  datatype Option<+T> = None | Some(value: T)
}
