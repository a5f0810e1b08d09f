/** The optional value used for an outcome that may be missing. */
module Wrappers {

  datatype Option<+T> = None | Some(value: T)
}
