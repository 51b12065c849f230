/** Results shared by the models of the scripts: a missing value or a raised error. */
module Wrappers {
  datatype Option<+T> = None | Some(value: T)
}
