/**
  Failure-carrying datatypes shared by the whole model.

  The Ruby library signals failure by raising; here every operation that can
  raise returns a `Result`, and the exception classes become `Error` values.
 */
module Errors {

  datatype Option<+T> = None | Some(value: T)

  /** What the database itself reports; the model layer converts only
      `UniqueViolation` raised by an INSERT into `UniqueIndexViolation`. */
  datatype StoreFailure =
    | UniqueViolation   // PG::UniqueViolation
    | InvalidInteger    // a parameter compared with the integer id column is not an int4 literal
    | SyntaxError       // the statement text does not parse
    | SequenceExhausted // the `SERIAL` sequence is past the largest int4

  datatype Error =
    | NoMethodError(name: string)   // Ruby's NoMethodError for the named method
    | NameError(name: string)       // Ruby's NameError for an undefined constant
    | UniqueIndexViolation          // Shoden::UniqueIndexViolation
    | StoreError(failure: StoreFailure)

  datatype Result<+T> = Ok(value: T) | Err(error: Error) {

    predicate IsFailure() {
      Err?
    }

    function PropagateFailure<U>(): Result<U>
      requires Err?
    {
      Err(error)
    }

    function Extract(): T
      requires Ok?
    {
      value
    }
  }
}
