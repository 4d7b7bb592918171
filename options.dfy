/** The optional value used for the source's `None` returns and raised errors. */
module Options {
  datatype Option<T> = None | Some(value: T)
}
