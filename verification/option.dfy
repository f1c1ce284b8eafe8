/** A value that may be absent: `undefined`, `null` or a missing object. */
module Optional {
  datatype Option<T> = None | Some(value: T)
}
