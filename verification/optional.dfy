/** A value that may be missing: JavaScript's `undefined` is `None`. */
module Optional {
  datatype Option<T> = None | Some(value: T)
}
