/** The optional value used for Python calls that either return a value or raise ValueError. */
module Wrappers {

  datatype Option<+T> = None | Some(value: T)
}
