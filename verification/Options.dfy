/** The optional values that every component below shares. */
module Options {
  datatype Option<+T> = None | Some(value: T)
}
