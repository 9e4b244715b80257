/** A value or a failure. The source's error texts are not modelled, so a failure carries nothing. */
module Results {
  datatype Result<+T> = Ok(value: T) | Error {
    predicate IsFailure() { Error? }

    function PropagateFailure<U>(): Result<U>
      requires Error?
    {
      Error
    }

    function Extract(): T
      requires Ok?
    {
      value
    }
  }

  datatype Option<+T> = None | Some(value: T)
}
