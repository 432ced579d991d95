/** The chess-rules library the application delegates to, as an interface.
    Nothing of the rules is modelled: an `Engine` value is any collection of
    total functions of the right shapes, and every theorem about the
    controller holds for all of them. */
module Engine {
  import opened Basics

  /** One entry of the verbose move history. */
  datatype Move = Move(color: Color, from: Square, to: Square, captured: Option<char>, san: string)

  /** One entry of the verbose legal-move list for a square. */
  datatype LegalMove = LegalMove(to: Square, promotion: bool)

  /** A game snapshot: the position (as its FEN text) and the move history
      the library keeps beside it. */
  datatype Game = Game(fen: string, history: seq<Move>)

  /** The status queries of the library. */
  datatype Flags = Flags(
    gameOver: bool, checkmate: bool, draw: bool, stalemate: bool,
    insufficientMaterial: bool, threefoldRepetition: bool, check: bool)

  /** `start` is the standard initial position. `tryMove` is `move`: None
      when it throws, otherwise the game after the move. `undo` is None when
      there was nothing to undo, otherwise the game after undoing. A move
      that throws, and an undo that undoes nothing, leave the game as it was. */
  datatype Engine = Engine(
    start: string,
    turn: Game -> Color,
    pieceAt: (Game, Square) -> Option<Piece>,
    moves: (Game, Square) -> seq<LegalMove>,
    tryMove: (Game, Square, Square, string) -> Option<Game>,
    undo: Game -> Option<Game>,
    flags: Game -> Flags)

  /** `new Chess()`: the initial position with no history. */
  function Initial(e: Engine): Game
  {
    Game(e.start, [])
  }

  /** `new Chess(fen)`. The library builds a game from the position text
      alone, so the new game starts with an empty history. This is assumed
      of the library, not derived. */
  function Rebuild(fen: string): Game
  {
    Game(fen, [])
  }

  /** The library's `undo` reports nothing when the game has no history to
      take back. Assumed of the library; the lemmas that need it require it. */
  ghost predicate UndoFollowsHistory(e: Engine)
  {
    forall g: Game :: g.history == [] ==> e.undo(g).None?
  }
}
