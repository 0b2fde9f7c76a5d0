/** A value that may be absent: a null pointer, or an answer that there is none. */
module Options {
  datatype Option<T> = None | Some(value: T)
}
