/** Optional values: JavaScript's `undefined` results (`find` with no hit,
    a missing property, a regular expression without a match). */
module Wrappers {

  datatype Option<+T> = None | Some(value: T)
}
