/** The optional value used for record fields that may be missing. */
module Options {

  datatype Option<+T> = None | Some(value: T)
}
