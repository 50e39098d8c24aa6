/** Optional values and outcomes that stand for Python's `None` and raised exceptions. */
module Results {

  datatype Option<+T> = None | Some(value: T)

  /** `Err` models an exception that the Python code raises or lets propagate. */
  datatype Result<+T, +E> = Ok(value: T) | Err(error: E)
}
