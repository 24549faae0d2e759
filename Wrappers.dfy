/** Option type shared by the model: Python's "value or None". */
module Wrappers {
  datatype Option<+T> = None | Some(value: T)
}
