/** An optional value: `None` stands for the Python exception a call raises. */
module Optional {
  datatype Option<T> = None | Some(value: T)
}
