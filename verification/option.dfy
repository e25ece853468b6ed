/** The optional value used wherever the script tests for `null`. */
module Optional {
  datatype Option<T> = None | Some(value: T)
}
