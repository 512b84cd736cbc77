/** Optional values and success/error results, used for the missing cells of a
    table and for the exceptions the modelled functions raise. */
module Results {

  datatype Option<+T> = None | Some(value: T)

  datatype Result<+T, +E> = Ok(value: T) | Err(error: E)
}
