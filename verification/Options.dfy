/** A value or nothing, for the program's Option and for the places where it panics. */
module Options {
  datatype Option<T> = None | Some(value: T)
}
