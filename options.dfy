/** The optional value that every failing operation of the reader collapses to. */
module Options {
  datatype Option<T> = None | Some(value: T)
}
