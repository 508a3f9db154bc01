/** The few Java notions the model needs: a possibly-null reference, the
    exceptions the modelled code can raise, and the outcome of a call:
    either a returned value or a thrown exception. */
module Lang {

  /** A Java reference that may be `null`. */
  datatype Nullable<+T> = Null | NonNull(value: T)

  /** The exceptions the modelled code raises. */
  datatype Exception =
    | ClassCast(key: string)      // a preference read with a getter of the wrong type
    | IndexOutOfBounds(index: int) // List.get outside the list

  /** What a Java call did: returned a value or threw an exception. */
  datatype Result<+T> = Ok(value: T) | Throw(exception: Exception) {

    /** The returned value, or `default` when the call threw. */
    function GetOr(default: T): T {
      match this
      case Ok(v) => v
      case Throw(_) => default
    }
  }
}
