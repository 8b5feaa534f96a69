/** The optional value used for Python's "an exception was raised and caught" paths. */
module Wrappers {

  datatype Option<+T> = None | Some(value: T)
}
