/** Optional values: a JavaScript argument that may be left undefined. */
module Wrappers {

  datatype Option<+T> = None | Some(value: T)
}
