/** The absent-or-present value used for nullable pointers and optional results. */
module Optional {
  datatype Option<+T> = None | Some(value: T)
}
