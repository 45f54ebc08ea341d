/** The optional result the bounded search reports. */
module Wrappers {
  datatype Option<+T> = None | Some(value: T)
}
