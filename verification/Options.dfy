/** An optional value, for pointers that may be nil and for results that may be errors. */
module Options {
  datatype Option<+T> = None | Some(value: T)
}
