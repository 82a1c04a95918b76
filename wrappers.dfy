/** Optional values: a DOM element or an input value that may be absent. */
module Wrappers {

  datatype Option<+T> = None | Some(value: T)

}
