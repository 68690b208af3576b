/** A value that may be missing: a position not found, a text that cannot be parsed, a stream not open. */
module Options {
  datatype Option<T> = None | Some(value: T)
}
