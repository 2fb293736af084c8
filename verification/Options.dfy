/** A value that may be missing: a search that finds nothing, a NULL pointer. */
module Options {
  datatype Option<T> = None | Some(value: T)
}
