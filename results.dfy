/** A value or the error that Python would have raised instead of returning it. */
module Results {

  datatype Result<T, E> = Ok(value: T) | Err(error: E)

}
