/** A value that may be missing: a null pointer, an absent key, a refused request. */
module Options {
  datatype Option<+T> = None | Some(value: T)
}
