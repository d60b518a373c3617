/** Failure-carrying return values: the model returns these where the C code
    would read past the end of a vector or shift by an undefined amount. */
module Results {

  datatype Option<+T> = None | Some(value: T)

  datatype Result<+T, +E> = Ok(value: T) | Err(error: E)
}
