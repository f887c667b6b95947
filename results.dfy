/** Optional values and results with an error, used for the script's
    `None` values and for the conditions under which it aborts. */
module Results {

  datatype Option<T> = None | Some(value: T)

  datatype Result<T, E> = Ok(value: T) | Err(error: E)
}
