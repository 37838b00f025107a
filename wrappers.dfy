/** The optional value used for "not found" results and for dropped frames. */
module Wrappers {

  datatype Option<T> = None | Some(value: T)
}
