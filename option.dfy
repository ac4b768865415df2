// A value that may be missing: Python's None, JavaScript's null.
module Optional {
  datatype Option<T> = None | Some(value: T)
}
