/** Optional values, standing for JavaScript's `undefined`/`null` where a field or lookup may be absent. */
module Wrappers {

  datatype Option<+T> = None | Some(value: T)

}
