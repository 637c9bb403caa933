// A value, or its absence: a rejected input or an empty slot.
module Options {
  datatype Option<+T> = None | Some(value: T)
}
