/** Results of operations that throw in the original. */
module Wrappers {
  datatype Option<+T> = None | Some(value: T)
}
