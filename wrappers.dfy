/** Optional values: stand-ins for the INFINITY and nullptr sentinels of the collision code. */
module Wrappers {
  datatype Option<+T> = None | Some(value: T)
}
