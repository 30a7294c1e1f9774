/** The optional value used where the source returns nil or an ignored error. */
module Options {
  datatype Option<+T> = None | Some(value: T)
}
