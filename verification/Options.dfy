/** A value that may be absent: `undefined`, `null` or an invalid date in the program. */
module Options {
  datatype Option<+T> = None | Some(value: T)
}
