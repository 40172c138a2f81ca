/** The optional value used wherever the page hands back a value or null. */
module Wrappers {
  datatype Option<T> = None | Some(value: T)
}
