/** The optional value used wherever the scripts return `None` or a value. */
module Wrappers {
  datatype Option<+T> = None | Some(value: T)
}
