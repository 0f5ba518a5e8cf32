/**
 A value that may be missing: a null pointer, a failed allocation, a rule that
 is not there.
 */
module Wrappers {
  datatype Option<+T> = None | Some(value: T)
}
