/** The conventional optional value, used where the source has a nil or an (x, ok) pair. */
module Optional {
  datatype Option<+T> = None | Some(value: T)
}
