/** An optional value: null, undefined or None in the sources. */
module Options {
  datatype Option<+T> = None | Some(value: T)
}
