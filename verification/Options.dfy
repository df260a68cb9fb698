/** A value that may be missing: the source's NULL and -1 results. */
module Options {
  datatype Option<+T> = None | Some(value: T)
}
