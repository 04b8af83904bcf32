/** Results and the errors the proposal code raises, each named after the Python
    exception it stands for. */
module Outcomes {

  datatype Error =
    | BadVariables           // ValueError: variables is neither an int nor a list
    | NoParentSets           // IndexError: `parent_sets[0]` of an empty candidate list
    | EmptyDistribution      // ValueError: unpacking or maximising an empty conditioned slice
    | UnconditionedLogZ      // TypeError: `len()` of the 0-d array that wraps `table.values()`
    | UnknownParentSet       // KeyError: a parent set that is not a key of the table
    | InvalidProbabilities   // ValueError from `rng.choice`: NaN, negative, or not summing to 1
    | EmptyChoice            // ValueError from `rng.choice(0)`: nothing to choose from
    | ZeroDivision           // ZeroDivisionError: `q_move / q_inv` with no reverse moves
    | FanInViolation         // ValueError: a node has more parents than the fan-in allows

  datatype Result<+T> = Ok(value: T) | Err(error: Error)

  datatype Option<+T> = None | Some(value: T)
}
