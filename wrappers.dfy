/** The optional value used for "a closing offset, or none". */
module Wrappers {
  datatype Option<+T> = None | Some(value: T)
}
