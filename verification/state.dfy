/**
 * The state of one cell of the board and its conversions from a boolean,
 * from a byte of text, and to the byte it is displayed as.
 */
module CellState {
  /** An unsigned 8-bit value: text is read and written byte by byte. */
  newtype byte = b: int | 0 <= b < 256

  const NEWLINE: byte := 10          // '\n'
  const CARRIAGE_RETURN: byte := 13  // '\r'
  const HASH: byte := 35             // '#'
  const DOT: byte := 46              // '.'
  const ZERO: byte := 48             // '0'

  datatype State = Alive | Dead

  /** `From<bool>`: `true` is a live cell, `false` a dead one. */
  function FromBool(b: bool): (s: State)
    ensures s == Alive <==> b
  {
    if b then Alive else Dead
  }

  /** `From<u8>`: `.` and `0` are dead cells, every other byte is a live one. */
  function FromByte(c: byte): (s: State)
    ensures s == Dead <==> c == DOT || c == ZERO
    ensures c == HASH ==> s == Alive
  {
    if c == DOT || c == ZERO then Dead else Alive
  }

  /**
   * `Display for State`: a live cell is written `#`, a dead one `.`.
   * The byte never ends a line, and reading it back gives the same state.
   */
  function ToByte(s: State): (c: byte)
    ensures c != NEWLINE && c != CARRIAGE_RETURN
    ensures FromByte(c) == s
    ensures FromBool(s == Alive) == s
  {
    match s
    case Alive => HASH
    case Dead => DOT
  }
}
