/** Optional values: a request field that may be absent, a line that may yield nothing. */
module Options {

  datatype Option<+T> = None | Some(value: T)
}
