/** Optional values, standing in for JavaScript's `undefined`, `null` and
    `NaN` where the modelled code meets them. */
module Wrappers {

  datatype Option<+T> = None | Some(value: T)
}
