/** The optional-value type shared by the modules of this model. */
module Options {

  datatype Option<+T> = None | Some(value: T)
}
