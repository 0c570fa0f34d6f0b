/** Optional values and success-or-failure results, used for the cog's
    `None`-able fields and for commands that either act or refuse. */
module Wrappers {

  datatype Option<+T> = None | Some(value: T)

  datatype Result<+R, +E> = Success(value: R) | Failure(error: E)
}
