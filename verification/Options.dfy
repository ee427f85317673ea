module Options {
  /** A result that may be missing. */
  datatype Option<T> = None | Some(value: T)
}
