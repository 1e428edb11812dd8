/** Optional values: the model's stand-in for Python's `X | None` returns. */
module Options {

  datatype Option<+T> = None | Some(value: T)
}
