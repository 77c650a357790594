/** A value that may be missing: null pointers, empty fields and functions that do not succeed. */
module Options {
  datatype Option<+T> = None | Some(value: T)
}
