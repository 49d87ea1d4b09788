/** The optional value used where the script reads a field that may be absent. */
module Wrappers {
  datatype Option<+T> = None | Some(value: T)
}
