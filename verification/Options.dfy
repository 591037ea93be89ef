/** A value that may be missing: a null pointer, an absent column, a failed lookup. */
module Options {
  datatype Option<T> = None | Some(value: T)
}
