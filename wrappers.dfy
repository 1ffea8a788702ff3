/** The optional value used wherever the Python code either returns a value or raises. */
module Wrappers {

  datatype Option<T> = None | Some(value: T)
}
