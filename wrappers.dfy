/** The optional value used wherever the original passes a nullable pointer. */
module Wrappers {

  datatype Option<+T> = None | Some(value: T)
}
