/** Optional values: the model's stand-in for Python's `None`, `False` and the 'INF' sentinel. */
module Wrappers {

  datatype Option<T> = None | Some(value: T)

}
