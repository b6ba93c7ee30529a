/** Optional values: a DOM attribute that may be absent reads as None (JavaScript's null). */
module Wrappers {

  datatype Option<+T> = None | Some(value: T)
}
