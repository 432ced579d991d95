/** Values shared by the board decoder, the move list and the controller. */
module Basics {

  datatype Option<+T> = None | Some(value: T)

  /** The two sides; the source writes them 'w' and 'b'. */
  datatype Color = White | Black

  function Opponent(c: Color): (o: Color)
    ensures o != c
  {
    if c == White then Black else White
  }

  /** The one-letter code the source uses for a side. */
  function ColorCode(c: Color): string
  {
    if c == White then "w" else "b"
  }

  /** A piece as `{type, color}`: `kind` is the lower-case piece letter. */
  datatype Piece = Piece(kind: char, color: Color)

  /** A square name such as "e4". Square names are never empty, so a
      `square | null` value is truthy exactly when it is not null. */
  type Square = s: string | s != [] witness "a1"

  /** A `{from, to}` pair: a pending promotion or the last move. */
  datatype FromTo = FromTo(from: Square, to: Square)
}
