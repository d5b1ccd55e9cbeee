/** Optional values, used wherever the source has a sentinel such as SCHED_CPU_NONE. */
module Wrappers {
  datatype Option<+T> = None | Some(value: T)
}
