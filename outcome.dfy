/** Outcomes of runtime operations.

   The C runtime has no error channel: a detected error calls `__fatal`, which
   prints a diagnostic and aborts the process.  Here that is the failure
   `Fatal`.  Reading a payload through the accessor of another variant is
   undefined behaviour in C; the pure functions that walk caller-supplied trees
   report it as the failure `Undefined` instead of guessing what the machine
   would read. */
module Outcome {

  datatype Option<+T> = None | Some(value: T)

  datatype Failure =
    | Fatal(reason: string)      // `__fatal`: diagnostic, then abort()
    | Undefined(reason: string)  // a union member read through the wrong variant

  datatype Result<+T> = Ok(value: T) | Fail(failure: Failure) {

    predicate IsFailure() {
      Fail?
    }

    function PropagateFailure<U>(): Result<U>
      requires Fail?
    {
      Fail(failure)
    }

    function Extract(): T
      requires Ok?
    {
      value
    }

    predicate IsFatal() {
      Fail? && failure.Fatal?
    }
  }
}
