/** The value-or-nothing type used for `null`, `undefined` and optional arguments. */
module Optional {
  datatype Option<+T> = None | Some(value: T)
}
