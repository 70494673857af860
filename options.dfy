/** Nullable references of the source (`nil`, `NULL`, `undefined`) become `None`. */
module Options {
  datatype Option<T> = None | Some(value: T)
}
