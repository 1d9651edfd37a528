/** An optional value: a computation either produces a value or none. */
module Optional {

  datatype Option<+T> = None | Some(value: T)
}
