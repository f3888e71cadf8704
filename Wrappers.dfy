/** A stand-in for a nullable reference in the pure layer. */
module Wrappers {

  datatype Option<+T> = None | Some(value: T)

}
