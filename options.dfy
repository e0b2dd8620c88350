/** The optional value used for the results of the host's lookups. */
module Options {
  datatype Option<+T> = None | Some(value: T)
}
