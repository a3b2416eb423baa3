/** The optional value shared by the models: a pointer that may be null, a node that may be missing. */
module Options {
  datatype Option<+T> = None | Some(value: T)
}
