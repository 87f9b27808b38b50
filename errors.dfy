/** Error kinds of the decoder and the failure-compatible result types. */
module Errors {

  /** The decoding errors (src/decode.rs, enum `Error`). Type-checking errors are not modelled. */
  datatype Error =
    | BadIndex
    | BothChildrenHidden
    | EmptyProgram
    | EndOfStream
    | InvalidJet
    | NaturalOverflow
    | NotInCanonicalOrder
    | StopCode
    | TooManyNodes(count: nat)

  datatype Option<T> = None | Some(value: T)

  /** A success value or an error; usable with `:-`. */
  datatype Result<T, E> = Ok(value: T) | Err(error: E) {
    predicate IsFailure() { Err? }

    function PropagateFailure<U>(): Result<U, E>
      requires Err?
    {
      Err(error)
    }

    function Extract(): T
      requires Ok?
    {
      value
    }
  }
}
