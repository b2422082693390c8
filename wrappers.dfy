/** Optional values: a TypeScript field that may be `undefined`, or a React
    state slot that may hold `null`. */
module Wrappers {

  datatype Option<+T> = None | Some(value: T)
}
