/** A value that may be absent: the program's `null`, `undefined` and missing keys. */
module Options {
  datatype Option<+T> = None | Some(value: T)
}
