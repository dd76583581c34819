/** The exceptions the agent code can raise, and a result type that carries
    either a value or one of them. */
module Results {

  /** The Python exceptions reachable in the agents' logic. */
  datatype Error =
    | EmptySequence    // ValueError: max() or min() of an empty list
    | NotInList        // ValueError: list.remove(x) when x is not in the list
    | IndexOutOfRange  // IndexError: a subscript out of range, or random.choice of []

  /** Either the value a computation returns or the exception it raises. */
  datatype Result<+T> = Ok(value: T) | Err(error: Error)
}
