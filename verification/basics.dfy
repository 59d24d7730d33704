/** Failure-compatible wrappers shared by every module, and the conditions the
    modelled code raises. */
module Basics {

  datatype Option<+T> = None | Some(value: T) {

    predicate IsFailure() {
      None?
    }

    function PropagateFailure<U>(): Option<U>
      requires None?
    {
      None
    }

    function Extract(): T
      requires Some?
    {
      value
    }

    function GetOr(default: T): T {
      match this
      case Some(v) => v
      case None => default
    }
  }

  /** The exceptions the modelled Python code raises, one constructor per cause. */
  datatype Error =
    | NoSuchAxis(axisName: string)            // getAxis returned None, so `.tag`/`.name` fails
    | LocationMismatch                        // user location keys differ from the axes' names
    | MissingLabel(axisName: string, userValue: real)
    | MissingKey(key: string)                 // a Python KeyError
    | InconsistentOrdering                    // only some axes declare a STAT ordering
    | UnreachableFormat(format: int)          // a label format other than 1, 2 or 3
    | InvalidValue                            // a Python ValueError
    | RecursionLimit                          // the name recursion ran out of depth

  datatype Result<+T> = Ok(value: T) | Err(error: Error) {

    predicate IsFailure() {
      Err?
    }

    function PropagateFailure<U>(): Result<U>
      requires Err?
    {
      Err(error)
    }

    function Extract(): T
      requires Ok?
    {
      value
    }
  }
}
