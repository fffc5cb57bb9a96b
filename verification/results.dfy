/** Failure-carrying results used across the model. */
module Results {

  /** The standard library's `Option`: a search that may find nothing. */
  datatype Option<+T> = None | Some(value: T)

  /** `Result<T, ()>`: the parsers of the library report every failure as the unit
      error, so the error side carries no payload. */
  datatype Result<+T> = Ok(value: T) | Err
}
