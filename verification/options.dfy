/** Python's `Optional[T]`: a value that may be `None`. */
module Options {

  datatype Option<+T> = None | Some(value: T)

}
