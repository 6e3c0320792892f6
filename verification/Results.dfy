/** The two result shapes every other module uses in place of `undefined` and of thrown errors. */
module Results {
  datatype Option<+T> = None | Some(value: T)

  datatype Result<+T, +E> = Ok(value: T) | Err(error: E)
}
