/** Option: Python's "a value or None". */
module Wrappers {

  datatype Option<+T> = None | Some(value: T)
}
