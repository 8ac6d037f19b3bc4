/** Values or the refusals that the modelled functions throw instead of one. */
module Results {

  datatype Refusal =
    | InvalidArgument
    | InvalidAmount

  datatype Result<+T> = Ok(value: T) | Err(error: Refusal) {
    predicate IsFailure() {
      Err?
    }

    function PropagateFailure<U>(): Result<U>
      requires Err?
    {
      Err(error)
    }

    function Extract(): T
      requires Ok?
    {
      value
    }
  }
}
