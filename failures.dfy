/** The ways a balancing request can stop early. The Python program has no
    error kinds of its own: each of these is the point where the Python code
    raises (an IndexError or a ValueError) and the request is abandoned. */
module Failures {

  datatype Failure =
    | TrailingText       // findSymbols reads past the last split part (IndexError)
    | UnclosedGroup      // a segment starting with '(' has no ')' (IndexError)
    | MissingMultiplier  // a group has no digits after ')' (int('') raises ValueError)
    | SpeciesGap         // addToMatrix with an index beyond the next row (IndexError)
    | EmptyNullSpace     // nullspace() returned no vector (IndexError)
    | ShortSolution      // the chosen vector has fewer entries than species (IndexError)

  datatype Result<T> = Ok(value: T) | Err(error: Failure)
}
