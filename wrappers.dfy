/** Optional values and results that may carry an exception. */
module Wrappers {

  datatype Option<+T> = None | Some(value: T)

  /** The exceptions the modelled members throw. */
  datatype Exception =
    | ArgumentException
    | InvalidOperationException
    | InvalidCastException
    | NullReferenceException
    | OverflowException
    /** Any exception raised while opening a block definition. */
    | OpenFailed

  datatype Result<+T> = Ok(value: T) | Throws(exception: Exception)
}
