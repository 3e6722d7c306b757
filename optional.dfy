/** The optional value used wherever the Java code has a nullable reference,
    an `Optional`, or an exception that its caller catches. */
module Optional {
  datatype Option<+T> = None | Some(value: T)
}
