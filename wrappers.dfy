/** Optional values: `undefined`/`null`/`None` in the modelled sources. */
module Wrappers {

  datatype Option<+T> = None | Some(value: T)

}
