/** The Option datatype, used where the C code returns NULL or leaves a result unset. */
module Wrappers {
  datatype Option<+T> = None | Some(value: T)
}
