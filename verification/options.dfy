/** A value that may be absent: what the kernel expresses by a null pointer. */
module Options {
  datatype Option<+T> = None | Some(value: T)
}
