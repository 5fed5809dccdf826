/** Optional values: PHP's "key absent / null" versus a present value. */
module Wrappers {
  datatype Option<T> = None | Some(value: T)
}
