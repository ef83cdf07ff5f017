/** The optional value used throughout the model: an absent map entry, a nil pointer, or a call that panics. */
module Options {
  datatype Option<+T> = None | Some(value: T)
}
