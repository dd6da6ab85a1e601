/** A value that may be missing: what the source expresses with a nil, an `ok` result or an error. */
module Options {
  datatype Option<T> = None | Some(value: T)
}
