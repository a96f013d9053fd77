/** Optional values, used for a JavaScript NaN, an unset validator and an
    empty timeout slot. */
module Wrappers {

  datatype Option<+T> = None | Some(value: T)
}
