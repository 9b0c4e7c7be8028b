/** Optional values, the errors the review pipeline can raise, and a
    failure-compatible Result used with `:-`. */
module Results {

  /** Python's `Optional[...]`: a value that may be `None`. */
  datatype Option<+T> = None | Some(value: T)

  /** The exceptions that abort a review run.
      - ValueError: a tool ran before the stage it depends on.
      - TypeError: iteration over an absent (`None`) clause list.
      - AgentFailure: a language-model call raised; its text is opaque. */
  datatype Error =
    | ValueError(message: string)
    | TypeError(message: string)
    | AgentFailure(message: string)

  datatype Result<+T> = Ok(value: T) | Err(error: Error) {

    predicate IsFailure() {
      Err?
    }

    function PropagateFailure<U>(): Result<U>
      requires Err?
    {
      Err(error)
    }

    function Extract(): T
      requires Ok?
    {
      value
    }
  }
}
