/** Optional values and success/failure results, standing in for Python's
    `None` and for the exceptions the scripts raise. */
module Results {

  datatype Option<+T> = None | Some(value: T)

  datatype Result<+T, +E> = Ok(value: T) | Err(error: E)
}
