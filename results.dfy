/** Failure-carrying values. The Kotlin code signals failure by throwing
    `IllegalArgumentException` (or by a lookup returning `null`); the model
    returns one of these instead. */
module Results {

  /** A lookup or conversion that may find nothing (`null` / a thrown exception
      whose message is never observed). */
  datatype Option<+T> = None | Some(value: T) {
    predicate IsFailure() { None? }

    function PropagateFailure<U>(): Option<U>
      requires None?
    {
      None
    }

    function Extract(): T
      requires Some?
    {
      value
    }
  }

  /** A value, or the message of the `IllegalArgumentException` that was thrown. */
  datatype Result<+T> = Ok(value: T) | Err(error: string) {
    predicate IsFailure() { Err? }

    function PropagateFailure<U>(): Result<U>
      requires Err?
    {
      Err(error)
    }

    function Extract(): T
      requires Ok?
    {
      value
    }
  }

  /** The outcome of a sequence of `require` checks that returns nothing. */
  datatype Outcome = Pass | Fail(message: string)
}
