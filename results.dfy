/** Optional values and results with an error, used where the script has a null,
    a missing key or an exception. */
module Results {

  datatype Option<+T> = None | Some(value: T)

  datatype Result<+T, +E> = Ok(value: T) | Err(error: E)
}
