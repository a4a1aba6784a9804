/** Failure-carrying result types shared by every module of the model. */
module Wrappers {

  /** A value that may be absent: the model's counterpart of `undefined`. */
  datatype Option<+T> = None | Some(value: T) {
    function GetOr(default: T): T {
      match this
      case Some(v) => v
      case None => default
    }
  }

  /** The reasons the modelled code throws instead of returning. */
  datatype Error =
    | InvalidPlacement
    | OutOfBounds
    | NoTileAtCoordinates
    | MissingNode
    | CannotEndRound
    | CannotMakeMove
    | MalformedMove
    | SlotUndefined

  /** The outcome of an operation that may throw. */
  datatype Result<+R> = Ok(value: R) | Err(error: Error) {
    predicate IsFailure() {
      Err?
    }

    function PropagateFailure<U>(): Result<U>
      requires Err?
    {
      Err(error)
    }

    function Extract(): R
      requires Ok?
    {
      value
    }
  }
}
