/** The optional result the C code signals with a 0 / -1 return code. */
module Options {
  datatype Option<T> = None | Some(value: T)
}
