/** Optional values, for the firmware's NULL pointers and absent inputs. */
module Wrappers {
  datatype Option<T> = None | Some(value: T)
}
