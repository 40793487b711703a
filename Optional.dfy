/** Python's `None`-or-value, used for the tracker's baseline app and for failed lookups. */
module Optional {
  datatype Option<+T> = None | Some(value: T)
}
