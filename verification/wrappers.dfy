/** Optional values, used where the game's code may produce nothing
    (an unmapped key, a retry loop that the model cuts off). */
module Wrappers {

  datatype Option<+T> = None | Some(value: T)
}
