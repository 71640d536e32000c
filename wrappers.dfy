/** Optional values: a field or argument that may be absent (`undefined` or `null` in the browser). */
module Wrappers {

  datatype Option<+T> = None | Some(value: T)
}
