/** The optional value used wherever the Python code holds `None` or a value. */
module Wrappers {

  datatype Option<+T> = None | Some(value: T)
}
