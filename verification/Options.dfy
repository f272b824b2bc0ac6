/** A value that may be absent, as in the programs modelled. */
module Options {
  datatype Option<+T> = None | Some(value: T)
}
