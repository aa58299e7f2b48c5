/** The optional value used for JavaScript's `null`/`undefined` in the model. */
module Options {
  datatype Option<+T> = None | Some(value: T)
}
