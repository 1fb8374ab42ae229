/** A value or none, as for a pointer that may be NULL. */
module Options {
  datatype Option<T> = None | Some(value: T)
}
