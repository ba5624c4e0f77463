// A value that may be absent: the model of a C# null reference or nullable.

module Optional {
  datatype Option<T> = None | Some(value: T)
}
