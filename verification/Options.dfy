/** Values that may be missing: null pointers, results of searches that can fail. */
module Options {
  datatype Option<+T> = None | Some(value: T)
}
