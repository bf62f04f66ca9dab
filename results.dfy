/** Option and Result, the two failure-carrying shapes the Rust core returns. */
module Results {

  /** `Option<T>`: an absent (`None`) or present (`Some`) value. */
  datatype Option<+T> = None | Some(value: T)

  /** `Result<T, E>`: success (`Ok`) or an error (`Err`). */
  datatype Result<+T, +E> = Ok(value: T) | Err(error: E)
}
