/** Python's `None` or a value: the result of a parse that may find nothing. */
module Wrappers {

  datatype Option<+T> = None | Some(value: T)
}
