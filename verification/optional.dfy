/** The optional value used wherever a Java method either yields a value or throws. */
module Optional {

  datatype Option<+T> = None | Some(value: T)
}
