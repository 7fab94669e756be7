/** Optional values: an absent weak reference, an unbound listener. */
module Options {

  datatype Option<+T> = None | Some(value: T)

}
