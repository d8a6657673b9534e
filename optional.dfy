// A value that may be missing: the model's stand-in for a null reference.

module Optional {
  datatype Option<+T> = None | Some(value: T)
}
