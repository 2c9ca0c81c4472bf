/** The optional value used where the Java code has `null` or throws. */
module Wrappers {

  datatype Option<+T> = None | Some(value: T)
}
