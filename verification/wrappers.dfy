/** Optional values: a C argument that may be NULL, or a lookup that may fail. */
module Wrappers {

  datatype Option<+T> = None | Some(value: T)
}
