/** Optional values: JavaScript's `undefined`/`null` for a missing field or a failed `find`. */
module Wrappers {

  datatype Option<+T> = None | Some(value: T)
}
