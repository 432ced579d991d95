/** The application component as an object: its state variables are
    fields, and each handler updates them in place, the way the component's
    setters do. Every handler's new state is the transition of module App
    applied to the old state, so the lemmas there describe these methods. */
module Controller {
  import opened Basics
  import opened Engine
  import opened App

  /** The status branch of `updateGameState`: the text is built by
      reassignment, a draw gaining one suffix per reason. */
  method StatusLine(v: Variant, started: bool, flags: Flags, turn: Color) returns (text: string)
    ensures text == StatusText(StatusOf(v, started, flags, turn))
  {
    if v == Current && !started {
      text := NotStartedText;
    } else if flags.checkmate {
      text := "Checkmate! " + SideName(Opponent(turn)) + " wins!";
    } else if flags.draw {
      text := DrawLine(flags.stalemate, flags.insufficientMaterial, flags.threefoldRepetition);
    } else if flags.check {
      text := SideName(turn) + " is in check";
    } else {
      text := SideName(turn) + " to move";
    }
  }

  /** The draw text: one suffix per reason, in the source's order. */
  method DrawLine(stalemate: bool, insufficient: bool, threefold: bool) returns (text: string)
    ensures text == StatusText(Draw(stalemate, insufficient, threefold))
  {
    text := "Game ended in a draw";
    if stalemate {
      text := text + " (Stalemate)";
    }
    if insufficient {
      text := text + " (Insufficient material)";
    }
    if threefold {
      text := text + " (Threefold repetition)";
    }
  }

  /** The captured-pieces branch of `updateGameState`: a captured type is
      pushed onto the list of the side that lost it. */
  method CollectCaptures(history: seq<Move>) returns (c: Captured)
    ensures c == CapturesOf(history)
  {
    var w: seq<char> := [];
    var b: seq<char> := [];
    for i := 0 to |history|
      invariant Captured(w, b) == CapturesOf(history[..i])
    {
      var move := history[i];
      assert history[..i + 1][..i] == history[..i];
      if move.captured.Some? {
        if move.color == White {
          b := b + [move.captured.value];
        } else {
          w := w + [move.captured.value];
        }
      }
    }
    assert history[..|history|] == history;
    c := Captured(w, b);
  }

  class ChessApp {
    const engine: Engine
    const variant: Variant

    var game: Game
    var gameStarted: bool
    var selectedSquare: Option<Square>
    var validMoves: seq<Square>
    var promotionSquare: Option<Square>
    var pendingMove: Option<FromTo>
    var lastMove: Option<FromTo>
    var moveHistory: seq<Move>
    var status: string
    var captured: Captured
    var currentPlayer: Color

    /** The fields as one value. */
    function State(): Ui
      reads this
    {
      Ui(game, gameStarted, selectedSquare, validMoves, promotionSquare, pendingMove,
         lastMove, moveHistory, status, captured, currentPlayer)
    }

    predicate Valid()
      reads this
    {
      Invariant(engine, variant, State())
    }

    /** Mounting: the initial state values, then the effect's first run. */
    constructor (engine: Engine, variant: Variant)
      ensures this.engine == engine && this.variant == variant
      ensures State() == Mount(engine, variant)
      ensures Valid()
    {
      this.engine := engine;
      this.variant := variant;
      game := Initial(engine);
      gameStarted := false;
      selectedSquare := None;
      validMoves := [];
      moveHistory := [];
      status := if variant == Current then NotStartedText else "";
      promotionSquare := None;
      pendingMove := None;
      captured := Captured([], []);
      lastMove := None;
      currentPlayer := White;
      new;
      UpdateGameState();
      MountInvariant(engine, variant);
    }

    /** `updateGameState`: recomputes the derived view from the game. */
    method UpdateGameState()
      modifies this
      ensures State() == Refresh(engine, variant, old(State()))
    {
      var turn := engine.turn(game);
      if variant == Current {
        currentPlayer := turn;
      }
      status := StatusLine(variant, gameStarted, engine.flags(game), turn);
      var history := game.history;
      moveHistory := history;
      if variant == Current {
        if |history| > 0 {
          var last := history[|history| - 1];
          lastMove := Some(FromTo(last.from, last.to));
        } else {
          lastMove := None;
        }
      }
      captured := CollectCaptures(history);
    }

    /** `makeMove`: on acceptance installs a game rebuilt from the position
        the move reached; a rejected move changes nothing. */
    method MakeMove(from: Square, to: Square, promotion: string) returns (replaced: bool)
      modifies this
      ensures Step(State(), replaced) == MakeMoveStep(engine, variant, old(State()), from, to, promotion)
    {
      replaced := false;
      var moved := engine.tryMove(game, from, to, promotion);
      if moved.Some? {
        game := Rebuild(moved.value.fen);
        replaced := true;
        if variant == Current {
          lastMove := Some(FromTo(from, to));
        }
      }
    }

    method HandleSquareClick(square: Square)
      requires Valid()
      modifies this
      ensures State() == Click(engine, variant, old(State()), square)
      ensures Valid()
    {
      ClickPreserves(engine, variant, State(), square);
      if !(variant == Legacy || gameStarted) || engine.flags(game).gameOver || promotionSquare.Some? {
        return;
      }
      var replaced := false;
      if selectedSquare.Some? {
        var from := selectedSquare.value;
        var move := FindMove(engine.moves(game, from), square);
        if move.Some? {
          if move.value.promotion {
            promotionSquare := Some(square);
            pendingMove := Some(FromTo(from, square));
          } else {
            replaced := MakeMove(from, square, "q");
          }
        }
        selectedSquare := None;
        validMoves := [];
      } else {
        var piece := engine.pieceAt(game, square);
        if piece.Some? && piece.value.color == engine.turn(game) {
          selectedSquare := Some(square);
          validMoves := Destinations(engine.moves(game, square));
        }
      }
      if replaced {
        UpdateGameState();
      }
    }

    method HandlePromotion(piece: string)
      requires Valid()
      modifies this
      ensures State() == Promote(engine, variant, old(State()), piece)
      ensures Valid()
    {
      PromotePreserves(engine, variant, State(), piece);
      if pendingMove.Some? {
        var pm := pendingMove.value;
        var replaced := MakeMove(pm.from, pm.to, piece);
        promotionSquare := None;
        pendingMove := None;
        if replaced {
          UpdateGameState();
        }
      }
    }

    method HandleNewGame()
      requires Valid()
      modifies this
      ensures State() == NewGame(engine, variant, old(State()))
      ensures Valid()
    {
      game := Initial(engine);
      selectedSquare := None;
      validMoves := [];
      promotionSquare := None;
      pendingMove := None;
      if variant == Current {
        captured := Captured([], []);
        lastMove := None;
        gameStarted := true;
      }
      ghost var cleared := State();
      assert cleared == NewGameStep(engine, variant, old(State())).ui;
      UpdateGameState();
      assert State() == Refresh(engine, variant, cleared);
      NewGamePreserves(engine, variant, old(State()));
    }

    method HandleUndoMove()
      requires Valid()
      modifies this
      ensures State() == UndoMove(engine, variant, old(State()))
      ensures Valid()
    {
      UndoPreserves(engine, variant, State());
      if variant == Current {
        if !gameStarted {
          return;
        }
        var undone := engine.undo(game);
        if undone.Some? {
          game := Rebuild(undone.value.fen);
          UpdateGameState();
        }
      } else {
        var undone := engine.undo(game);
        if undone.Some? {
          game := undone.value;
        }
        game := Rebuild(game.fen);
        UpdateGameState();
      }
    }
  }
}
