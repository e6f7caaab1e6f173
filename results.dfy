/** Option and Result values for the Python exceptions and "not found" answers of the model. */
module Results {

  datatype Option<+T> = None | Some(value: T)

  /** Ok carries what the Python code returns; Err names the exception it raises instead. */
  datatype Result<+T, +E> = Ok(value: T) | Err(error: E)
}
