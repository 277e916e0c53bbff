/** Values that may be absent: nil pointers and slices, and calls that report an error. */
module Options {
  datatype Option<+T> = None | Some(value: T)
}
