/** Optional values: the model's stand-in for JavaScript's `undefined` and `null`. */
module Wrappers {

  datatype Option<+T> = None | Some(value: T)

  /** `later` when it holds a value, otherwise `earlier`: the effect of assigning
      a field a second time. */
  function Latest<T>(later: Option<T>, earlier: Option<T>): Option<T> {
    if later.Some? then later else earlier
  }
}
