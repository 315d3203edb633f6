/** The Some/None datatype standing in for Python's `Optional[...]` and `None`. */
module Optional {

  datatype Option<+T> = None | Some(value: T)
}
