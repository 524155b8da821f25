/** The optional value that several components return. */
module Options {

  datatype Option<+T> = None | Some(value: T)
}
