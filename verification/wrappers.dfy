/** Optional values and results with an error, as the chart converter uses them:
    an absent XML element or text is `None`, a raised exception is `Failure`. */
module Wrappers {

  datatype Option<+T> = None | Some(value: T)

  datatype Result<+R, +E> = Success(value: R) | Failure(error: E)
}
