/** The absent-or-present value used where the adapter works with `null`. */
module Wrappers {

  datatype Option<+T> = None | Some(value: T)
}
