/** Outcomes of operations that raise in the source. */
module Results {
  datatype Failure =
    | ZeroDivision
    | ValueError
    | RuntimeError
    | AssertionError
    | KeyError
    | IndexError
    | TypeError
    | AttributeError
    | EmptyListOfPoints
    | Panic

  datatype Option<+T> = None | Some(value: T)

  datatype Result<+T> = Ok(value: T) | Err(failure: Failure)
}
