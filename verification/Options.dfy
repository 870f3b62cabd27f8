/** A value that may be absent, such as a null pointer in the original. */
module Options {
  datatype Option<+T> = None | Some(value: T)
}
