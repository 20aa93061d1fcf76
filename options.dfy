/** The optional value used for NULL-able pointers and failed operations. */
module Options {
  datatype Option<T> = None | Some(value: T)
}
