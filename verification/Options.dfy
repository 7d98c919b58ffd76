/** A value that may be missing: a null pointer, an absent field, a client that never finished. */
module Options {
  datatype Option<+T> = None | Some(value: T)
}
