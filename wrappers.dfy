/** Python's `None`-or-value arguments, as a datatype. */
module Wrappers {

  datatype Option<+T> = None | Some(value: T)
}
