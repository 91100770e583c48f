/** Optional values, and results that carry a typed failure cause. */
module Results {

  datatype Option<+T> = None | Some(value: T)

  /** The source's raised errors become the `Err` case. */
  datatype Result<+T, +E> = Ok(value: T) | Err(error: E)
}
