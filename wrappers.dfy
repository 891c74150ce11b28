/** Results of operations that can fail: a value, or the error raised. */
module Wrappers {

  /** The exceptions the modelled code raises, with the data each message reports. */
  datatype Error =
    | CoordinateOutOfRange(x: int, y: int)   // checkRange: cell (x, y) is not on the board
    | NoShapeCharacter                       // the first shape has no non-whitespace character
    | NoPieceForCharacter(c: char)           // a challenge pattern names an unknown piece
    | PieceDoesNotMatchPattern(p: int)       // piece #p is drawn in a shape that is not a variant
    | TooManyPieces                          // more pieces than spare high bits for the tags

  datatype Option<T> = None | Some(value: T)

  datatype Result<T> = Ok(value: T) | Err(error: Error)
  {
    predicate IsFailure() { Err? }

    function PropagateFailure<U>(): Result<U>
      requires Err?
    {
      Err(error)
    }

    function Extract(): T
      requires Ok?
    {
      value
    }
  }
}
