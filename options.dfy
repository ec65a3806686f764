/** The optional value used where the source tests a reference for null. */
module Options {

  datatype Option<+T> = None | Some(value: T)
}
