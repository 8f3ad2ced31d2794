/**
 * The fields of a results file after the line has been split on single spaces.
 * Text-to-number conversion itself is not modelled: a token records which of
 * Python's int() and float() would accept its text, and the value they give.
 */
module Tokens {
  import opened Wrappers

  datatype Token =
    | IntText(i: int)     // decimal integer text such as "2": int() and float() both accept it
    | RealText(r: real)   // numeric text such as "1.0e-06" that only float() accepts
    | OtherText           // a word, or the empty field between two consecutive spaces

  type Line = seq<Token>

  /** A results file, one split line per element, in the order readlines() gives them. */
  type File = seq<Line>

  /** What int() gives for the token's text, or None where it raises ValueError. */
  function ToInt(t: Token): Option<int>
  {
    match t
    case IntText(i) => Some(i)
    case _ => None
  }

  /** What float() gives for the token's text, or None where it raises ValueError. */
  function ToReal(t: Token): Option<real>
  {
    match t
    case IntText(i) => Some(i as real)
    case RealText(r) => Some(r)
    case OtherText => None
  }

  /** Column col of row exists and float() accepts it. */
  predicate CellOk(row: Line, col: nat)
  {
    col < |row| && ToReal(row[col]).Some?
  }

  /** The value float() reads from column col of row; 0.0 stands in where it would raise. */
  function Cell(row: Line, col: nat): real
  {
    if CellOk(row, col) then ToReal(row[col]).value else 0.0
  }
}
