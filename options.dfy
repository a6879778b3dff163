/** Python's `None`-or-value results, as a datatype. */
module Options {

  datatype Option<+T> = None | Some(value: T)
}
