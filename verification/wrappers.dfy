/** The optional value used for a nullable field. */
module Wrappers {

  datatype Option<+T> = None | Some(value: T)
}
