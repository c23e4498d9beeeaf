/** A value or none: null pointers, absent records and refused input. */
module Options {
  datatype Option<+T> = None | Some(value: T)
}
