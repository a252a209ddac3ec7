/** The optional value used where the source has a nullable result. */
module Wrappers {
  datatype Option<+T> = None | Some(value: T)
}
