/** The two result types the model uses where the Go code returns a value with
    an `ok` flag or an `error`. */
module Results {
  datatype Option<+T> = None | Some(value: T)

  datatype Result<+T, +E> = Ok(value: T) | Err(error: E)
}
