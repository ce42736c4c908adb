/** The optional value used for `Option<T>` in the collector. */
module Options {
  datatype Option<+T> = None | Some(value: T)
}
