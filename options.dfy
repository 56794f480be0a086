/** The optional value that stands for Java's `Optional` and for a nullable reference. */
module Options {

  datatype Option<+T> = None | Some(value: T)
}
