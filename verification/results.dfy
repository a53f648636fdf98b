/** Result and Option values for the error paths of the encoder (panics, failed conversions). */
module Results {

  datatype Option<+T> = None | Some(value: T)

  datatype Result<+T, +E> = Ok(value: T) | Err(error: E)
}
