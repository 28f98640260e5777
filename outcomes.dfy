/** Values shared by every part of the engine: an optional value, and the
    outcome of a step that may raise one of Python's exceptions. The REPL
    catches every exception and prints it, so an exception is an ordinary
    result of a query, not a crash. */
module Outcomes {

  datatype Option<+T> = None | Some(value: T)

  /** The kind of exception a statement of the engine raises. */
  datatype Fault =
    | IndexError    // an index past the end of a list: tokens[i], reader[0], row[i]
    | ValueError    // list.index of an absent item, or a split that does not unpack into two
    | KeyError      // a dictionary lookup of a missing key
    | FileNotFound  // opening a file that does not exist
    | NameError     // reading the loop variable of a loop that never ran

  /** The result of a step: a value, or the exception it raised. */
  datatype Outcome<+T> = Ok(value: T) | Raise(fault: Fault) {

    predicate IsFailure() {
      Raise?
    }

    function PropagateFailure<U>(): Outcome<U>
      requires Raise?
    {
      Raise(fault)
    }

    function Extract(): T
      requires Ok?
    {
      value
    }
  }
}
