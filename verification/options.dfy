/** Optional values: a lookup that may find nothing, a call that may not be made. */
module Options {

  datatype Option<T> = None | Some(value: T)
}
