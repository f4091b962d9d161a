/** The optional value used throughout: a result not yet known, a child that is absent. */
module Options {

  datatype Option<+T> = None | Some(value: T)
}
