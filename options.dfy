/** The optional value used wherever the program returns `null` or falls back. */
module Options {

  datatype Option<+T> = None | Some(value: T)
}
