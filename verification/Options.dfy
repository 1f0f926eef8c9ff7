/** Optional values: a Rust `Option`, or a nullable column. */
module Options {
  datatype Option<+T> = None | Some(value: T)
}
