/** The value of a C pointer that may be NULL, and other results that may be absent. */
module Options {
  datatype Option<+T> = None | Some(value: T)
}
