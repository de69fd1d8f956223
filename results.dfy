/** The error values the engine reports, in place of the exceptions the source throws. */
module Results {

  datatype Option<+T> = None | Some(value: T)

  datatype Error =
    /** JointNotPossibleException: a joint needs at least two mass distributions. */
    | JointNotPossible
    /** MassDistributionNotValidException: the bpas of a result do not sum to one. */
    | NotValid
    /** setBpa was handed NaN or an infinity, which BigDecimal rejects
        (NumberFormatException): the outcome of a division by zero in double arithmetic. */
    | NonFiniteBpa
    /** ArithmeticException: an integer division by zero. */
    | DivisionByZero

  datatype Result<+T> = Success(value: T) | Failure(error: Error)
}
