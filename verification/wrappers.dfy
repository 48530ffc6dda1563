/** Optional values, used wherever the source reports absence. */
module Wrappers {

  /** Some value, or none (a failed call, a missing entry). */
  datatype Option<+T> = None | Some(value: T)
}
