/** Optional values, the exceptions the game code can raise, and results that
    carry either a value or one of those exceptions. */
module Base {

  datatype Option<+T> = None | Some(value: T)

  /** The Python exceptions the modelled code raises. */
  datatype PyError =
    | ValueError   // a bad argument: dealer index, card value, a missing list element
    | IndexError   // a list index or pop outside the list
    | TypeError    // indexing the players tuple with None

  datatype Result<+T> = Ok(value: T) | Err(error: PyError) {
    predicate IsFailure() { Err? }

    function PropagateFailure<U>(): Result<U>
      requires Err?
    {
      Err(error)
    }

    function Extract(): T
      requires Ok?
    {
      value
    }
  }
}
