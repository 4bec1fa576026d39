/** Failure-compatible wrapper used where the Python code works with `None`. */
module Wrappers {

  datatype Option<+T> = None | Some(value: T)

}
