/** Optional values and success/failure results, used for the TypeScript
    `x?: T` fields, `parseInt`'s NaN and zod's parse outcome. */
module Wrappers {

  datatype Option<+T> = None | Some(value: T)

  datatype Result<+T, +E> = Success(value: T) | Failure(error: E)
}
