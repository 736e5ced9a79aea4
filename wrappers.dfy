/** Optional values and error results, standing for JavaScript's `null`/`undefined`
    returns and for the scripts' early `return` / `process.exit(1)` paths. */
module Wrappers {

  datatype Option<+T> = None | Some(value: T)

  datatype Result<+R, +E> = Success(value: R) | Failure(error: E)
}
