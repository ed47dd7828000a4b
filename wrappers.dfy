/** An optional value: Python's "None or a value", and the outcome of a conversion that may fail. */
module Wrappers {
  datatype Option<+T> = None | Some(value: T)
}
