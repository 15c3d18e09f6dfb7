/** The result of a routine that may throw. */
module Outcomes {

  datatype Outcome<+T> = Ok(value: T) | Throw(error: string) {

    predicate IsFailure()
    {
      Throw?
    }

    function PropagateFailure<U>(): Outcome<U>
      requires Throw?
    {
      Throw(error)
    }

    function Extract(): T
      requires Ok?
    {
      value
    }
  }

  datatype Option<+T> = None | Some(value: T)
}
