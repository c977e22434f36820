/** An optional value: the result of a regular-expression match that may fail. */
module Options {
  datatype Option<T> = None | Some(value: T)
}
