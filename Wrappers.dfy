/** The optional value used across the model for Java's null and C's NULL. */
module Wrappers {

  datatype Option<+T> = None | Some(value: T)
}
