/** A value that may be absent: the model's stand-in for Python's `None`. */
module Optional {
  datatype Option<T> = None | Some(value: T)
}
