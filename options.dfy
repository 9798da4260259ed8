/** An optional value: an argument the caller may leave `undefined`. */
module Options {
  datatype Option<+T> = None | Some(value: T)
}
