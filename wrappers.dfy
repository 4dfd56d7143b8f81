/** Optional values: a nullable column, a key that may be absent from a request, a lookup that may miss. */
module Wrappers {

  datatype Option<+T> = None | Some(value: T)
}
