/** A value that may be missing: C's null pointers and its -1 for "no index". */
module Options {
  datatype Option<+T> = None | Some(value: T)
}
