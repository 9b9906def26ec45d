/** Option: the value-or-NULL results of the C code. */
module Wrappers {
  datatype Option<+T> = None | Some(value: T)
}
