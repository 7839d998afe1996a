/** Optional values: `None` stands for a pandas null (NaN / NaT). */
module Wrappers {
  datatype Option<+T> = None | Some(value: T)
}
