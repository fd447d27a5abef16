/** Python's "a value or `None`", as a datatype. */
module Wrappers {

  datatype Option<+T> = None | Some(value: T)
}
