/** The option type. */
module Wrappers {
  datatype Option<+T> = None | Some(value: T)
}
