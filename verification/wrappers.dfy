/** Optional values: `None` stands for a missing value, such as pandas' `NaT`
    for a timestamp that did not parse, or no signed-in user. */
module Wrappers {

  datatype Option<+T> = None | Some(value: T)
}
