/** A value that may be missing: a null pointer, or a call that throws. */
module Options {
  datatype Option<+T> = None | Some(value: T)
}
