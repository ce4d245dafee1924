/** The optional value used for Java's nullable references. */
module Wrappers {

  /** None stands for a Java null. */
  datatype Option<+T> = None | Some(value: T)
}
