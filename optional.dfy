/** A value that may be absent: stands for JavaScript's `null` result. */
module Optional {
  datatype Option<+T> = None | Some(value: T)
}
