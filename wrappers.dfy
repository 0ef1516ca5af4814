/** The optional value used where the Python code returns or stores `None`. */
module Wrappers {
  datatype Option<+T> = None | Some(value: T)
}
