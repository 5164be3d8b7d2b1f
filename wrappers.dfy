/** Optional values: the model's stand-in for TypeScript's `T | null` and for
    an array read that may yield `undefined`. */
module Wrappers {

  datatype Option<+T> = None | Some(value: T)
}
