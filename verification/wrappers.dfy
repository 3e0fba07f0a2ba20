/** Optional values, used where the source returns "nothing found" (a `None`
    minimum load, a fairness round with no movable unit). */
module Wrappers {
  datatype Option<+T> = None | Some(value: T)
}
