/** Failure-carrying results shared by every module of the model.
    The source signals failure by raising Python exceptions or by returning
    the sentinel -1; here each failure is an explicit `Err` value. */
module Base {

  datatype Option<T> = None | Some(value: T)

  /** The ways an operation of the toolkit can fail. */
  datatype Error =
    | FieldMismatch       // TypeError: two operands carry different moduli
    | NotInvertible       // the -1 sentinel of an inverse search was about to be used
    | NegativeExponent    // three-argument pow with a negative exponent
    | ZeroDivision        // `%` or `/` by zero (an empty Vigenere key)
    | IndexOutOfRange     // a number outside the conversion string
    | KeyNotFound         // a letter missing from the inverse conversion table
    | WrongTableType      // TypeError: the inverse table is not keyed by letters
    | EmptyTable          // IndexError: the inverse table has no keys at all
    | NotSquare           // the key matrix of a Hill cipher is not square
    | DimensionMismatch   // numpy shapes that cannot be combined

  datatype Result<T> = Ok(value: T) | Err(error: Error) {
    predicate IsFailure() { Err? }

    function PropagateFailure<U>(): Result<U>
      requires Err?
    {
      Err(error)
    }

    function Extract(): T
      requires Ok?
    {
      value
    }
  }
}
