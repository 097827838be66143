/** A value that may be missing. */
module Options {

  datatype Option<+V> = None | Some(value: V)
}
