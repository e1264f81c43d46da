/** A value that may be missing: the model's stand-in for the NULL pointers of the source. */
module Options {
  datatype Option<+T> = None | Some(value: T)
}
