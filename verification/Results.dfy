/** The exceptions of the source, as values. */
module Results {

  /** One constructor per exception class that the modelled code can raise; `id` is the number the
      JSON library puts in the message. */
  datatype Error =
    | ParseError(id: nat)
    | OutOfRange(id: nat)
    | TypeError(id: nat)
    | OtherError(id: nat)
    | InvalidArgument        // std::invalid_argument, from std::stoull on a text that is no number
    | AssertionFailure       // JSON_ASSERT(false)

  datatype Result<+T> = Ok(value: T) | Err(error: Error) {
    predicate IsFailure() {
      Err?
    }

    function PropagateFailure<U>(): Result<U>
      requires Err?
    {
      Err(error)
    }

    function Extract(): T
      requires Ok?
    {
      value
    }
  }

  datatype Option<+T> = None | Some(value: T)
}
