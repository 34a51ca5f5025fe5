/** The one optional type. */
module Options {
  datatype Option<+T> = None | Some(value: T)
}
