/** The optional value used for request headers that may be absent. */
module Wrappers {

  /** A value that may be missing; a header lookup that finds nothing yields `None`. */
  datatype Option<+T> = None | Some(value: T)
}
