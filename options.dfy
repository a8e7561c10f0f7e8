/** The optional value used wherever the source returns `null` or tests an argument for absence. */
module Options {
  datatype Option<+T> = None | Some(value: T)
}
