/** Optional values and success/error results, used for Python's `None`
    and for the exceptions the collector raises. */
module Results {

  datatype Option<+T> = None | Some(value: T)

  datatype Result<+T, +E> = Ok(value: T) | Err(error: E)
}
