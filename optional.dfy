/** A value that may be absent: JavaScript's `undefined`/`null` for an attribute or a collection. */
module Optional {
  datatype Option<+T> = None | Some(value: T)
}
