/** The failures of the F1 evaluation. Every one of them is a division by zero
    in the program; the constructor says which division it was. */
module Outcome {

  datatype ZeroDivision =
    | EmptyCandidate  // precision divides by len(set(cand))
    | EmptyReference  // recall divides by len(set(ref))
    | NoPairs         // the macro average divides by the number of scored pairs

  datatype Result<T> = Ok(value: T) | Err(error: ZeroDivision)
}
