/** Failure-compatible wrappers used throughout the model.
    - Option<T>: a value that may be absent (Python's None).
    - Result<T>: a value, or the exception the Python code would raise. */
module Results {

  datatype Option<+T> = None | Some(value: T) {

    predicate IsFailure() {
      None?
    }

    function PropagateFailure<U>(): Option<U>
      requires None?
    {
      None
    }

    function Extract(): T
      requires Some?
    {
      value
    }

    function GetOr(default: T): T {
      match this
      case Some(v) => v
      case None => default
    }
  }

  /** The exceptions the modelled code can let escape. */
  datatype Fault =
    | ValueError(text: string)   // float() / int() rejected its argument
    | ZeroDivisionError          // a division whose divisor is zero

  datatype Result<+T> = Ok(value: T) | Err(fault: Fault) {

    function GetOr(default: T): T {
      match this
      case Ok(v) => v
      case Err(_) => default
    }

    predicate IsFailure() {
      Err?
    }

    function PropagateFailure<U>(): Result<U>
      requires Err?
    {
      Err(fault)
    }

    function Extract(): T
      requires Ok?
    {
      value
    }
  }
}
