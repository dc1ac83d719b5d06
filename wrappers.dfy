/** The optional value of a nullable result. */
module Wrappers {

  datatype Option<T> = None | Some(value: T)
}
