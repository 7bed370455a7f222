/** The optional value the models below return where the scripts test for `null` or a failed match. */
module Options {
  datatype Option<T> = None | Some(value: T)
}
