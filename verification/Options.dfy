/** The optional values used across the project: `null`/`undefined` in the source. */
module Options {
  datatype Option<+T> = None | Some(value: T)
}
