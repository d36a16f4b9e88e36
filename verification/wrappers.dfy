/** The absent-or-present value used where the C code returns NULL for "nothing". */
module Wrappers {
  datatype Option<+T> = None | Some(value: T)
}
