/** The optional result used where the source returns null. */
module Options {
  datatype Option<+T> = None | Some(value: T)
}
