/** Optional values: a lookup that may find nothing, or a step that may fail. */
module Wrappers {

  datatype Option<+T> = None | Some(value: T)
}
