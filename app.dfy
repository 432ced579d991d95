/** The click-driven selection and promotion controller, as transitions on
    the component's state. `Current` is the controller of src/App.tsx;
    `Legacy` is the older copy in src/components/App.tsx, which has no
    started flag and no last-move highlight and always rebuilds on undo.

    Each handler is modelled as one atomic step: the state setters it calls
    (a `Step`, whose `replaced` records whether it installed a new game
    object), followed by the effect that recomputes the derived view from
    the new game (`Settle`). */
module App {
  import opened Basics
  import opened Engine
  import GameInfo

  datatype Variant = Current | Legacy

  /** Captured piece types: `w` holds white's lost pieces (taken by black's
      moves), `b` black's lost pieces (taken by white's moves). */
  datatype Captured = Captured(w: seq<char>, b: seq<char>)

  /** The component state. The last four fields are the derived view that
      `updateGameState` writes. */
  datatype Ui = Ui(
    game: Game,
    gameStarted: bool,
    selectedSquare: Option<Square>,
    validMoves: seq<Square>,
    promotionSquare: Option<Square>,
    pendingMove: Option<FromTo>,
    lastMove: Option<FromTo>,
    moveHistory: seq<Move>,
    status: string,
    captured: Captured,
    currentPlayer: Color)

  /** The state after a handler's setters, and whether `setGame` was called. */
  datatype Step = Step(ui: Ui, replaced: bool)

  /** Whether board clicks and undo can act: the legacy copy has no started
      flag and behaves as if always started. */
  predicate Active(v: Variant, u: Ui)
  {
    v == Legacy || u.gameStarted
  }

  // ---------------------------------------------------------------------
  // The derived view
  // ---------------------------------------------------------------------

  datatype Status =
    | AwaitingStart
    | Checkmate(winner: Color)
    | Draw(stalemate: bool, insufficientMaterial: bool, threefoldRepetition: bool)
    | InCheck(side: Color)
    | ToMove(side: Color)

  /** The status line's decision: not started, then checkmate (won by the
      side not to move), then draw, then check, then the side to move. */
  function StatusOf(v: Variant, started: bool, f: Flags, turn: Color): (s: Status)
    ensures s == AwaitingStart <==> v == Current && !started
    ensures s.Checkmate? ==> f.checkmate && s.winner == Opponent(turn) && s.winner != turn
    ensures s.Draw? ==>
              f.draw && !f.checkmate && s == Draw(f.stalemate, f.insufficientMaterial, f.threefoldRepetition)
    ensures s.InCheck? ==> f.check && !f.draw && !f.checkmate && s.side == turn
    ensures s.ToMove? ==> !f.check && !f.draw && !f.checkmate && s.side == turn
    ensures (v == Legacy || started) && f.checkmate ==> s.Checkmate?
  {
    if v == Current && !started then AwaitingStart
    else if f.checkmate then Checkmate(Opponent(turn))
    else if f.draw then Draw(f.stalemate, f.insufficientMaterial, f.threefoldRepetition)
    else if f.check then InCheck(turn)
    else ToMove(turn)
  }

  function SideName(c: Color): string
  {
    if c == White then "White" else "Black"
  }

  const NotStartedText: string := "Click \"New Game\" to start playing"

  /** The status line's text; the draw suffixes come in the order
      stalemate, insufficient material, threefold repetition. */
  function StatusText(s: Status): string
  {
    match s
    case AwaitingStart => NotStartedText
    case Checkmate(winner) => "Checkmate! " + SideName(winner) + " wins!"
    case Draw(a, b, c) =>
      "Game ended in a draw"
        + (if a then " (Stalemate)" else "")
        + (if b then " (Insufficient material)" else "")
        + (if c then " (Threefold repetition)" else "")
    case InCheck(side) => SideName(side) + " is in check"
    case ToMove(side) => SideName(side) + " to move"
  }

  function DrawLength(a: bool, b: bool, c: bool): nat
  {
    20 + (if a then 12 else 0) + (if b then 24 else 0) + (if c then 23 else 0)
  }

  /** The length of each kind of status line. */
  lemma StatusTextLength(s: Status)
    ensures |StatusText(s)| == match s
      case AwaitingStart => 33
      case Checkmate(_) => 22
      case Draw(a, b, c) => DrawLength(a, b, c)
      case InCheck(_) => 17
      case ToMove(_) => 13
  {
  }

  /** The status line is unambiguous: different statuses read differently,
      so the text alone tells which case, which side and which draw reasons. */
  lemma StatusTextInjective(s: Status, t: Status)
    requires StatusText(s) == StatusText(t)
    ensures s == t
  {
    StatusTextLength(s);
    StatusTextLength(t);
    var x := StatusText(s);
    match s
    case AwaitingStart =>
    case Checkmate(w) =>
      assert x[11] == SideName(w)[0];
    case Draw(a, b, c) =>
    case InCheck(side) =>
      assert x[0] == SideName(side)[0];
    case ToMove(side) =>
      assert x[0] == SideName(side)[0];
  }

  /** The captured lists: `b` holds the black pieces white took and `w` the
      white pieces black took, each in history order. */
  function CapturesOf(history: seq<Move>): Captured
  {
    if history == [] then Captured([], [])
    else
      var c := CapturesOf(history[..|history| - 1]);
      var m := history[|history| - 1];
      match m.captured
      case None => c
      case Some(t) => if m.color == White then c.(b := c.b + [t]) else c.(w := c.w + [t])
  }

  /** The types captured by `mover`'s moves, in history order. */
  function CapturedBy(history: seq<Move>, mover: Color): seq<char>
  {
    if history == [] then []
    else
      (if history[0].color == mover && history[0].captured.Some? then [history[0].captured.value] else [])
        + CapturedBy(history[1..], mover)
  }

  /** Every captured type in history order, whoever moved. */
  function AllCaptured(history: seq<Move>): seq<char>
  {
    if history == [] then []
    else
      (if history[0].captured.Some? then [history[0].captured.value] else [])
        + AllCaptured(history[1..])
  }

  lemma {:induction false} CapturedByAppend(history: seq<Move>, m: Move, mover: Color)
    ensures CapturedBy(history + [m], mover)
            == CapturedBy(history, mover) + (if m.color == mover && m.captured.Some? then [m.captured.value] else [])
  {
    if history != [] {
      assert (history + [m])[1..] == history[1..] + [m];
      CapturedByAppend(history[1..], m, mover);
    } else {
      assert [m][1..] == [];
    }
  }

  /** The captured lists partition the history's captures by the side that
      moved: `b` is what white's moves took, `w` what black's moves took. */
  lemma {:induction false} CapturesPartition(history: seq<Move>)
    ensures CapturesOf(history).b == CapturedBy(history, White)
    ensures CapturesOf(history).w == CapturedBy(history, Black)
  {
    if history != [] {
      var p := history[..|history| - 1];
      var m := history[|history| - 1];
      CapturesPartition(p);
      assert history == p + [m];
      CapturedByAppend(p, m, White);
      CapturedByAppend(p, m, Black);
    }
  }

  /** Together the two lists hold every capture exactly once. */
  lemma {:induction false} CapturesComplete(history: seq<Move>)
    ensures multiset(CapturesOf(history).w) + multiset(CapturesOf(history).b)
            == multiset(AllCaptured(history))
  {
    CapturesPartition(history);
    CapturesSplit(history);
  }

  lemma {:induction false} CapturesSplit(history: seq<Move>)
    ensures multiset(CapturedBy(history, Black)) + multiset(CapturedBy(history, White))
            == multiset(AllCaptured(history))
  {
    if history != [] {
      CapturesSplit(history[1..]);
    }
  }

  /** The last move of the history, for highlighting. */
  function LastMoveOf(history: seq<Move>): Option<FromTo>
  {
    if |history| > 0 then Some(FromTo(history[|history| - 1].from, history[|history| - 1].to)) else None
  }

  /** `updateGameState`: the derived view recomputed from the game. Only the
      view changes; the legacy copy has no current player or last move. */
  function Refresh(e: Engine, v: Variant, u: Ui): (r: Ui)
    ensures r.(status := u.status, moveHistory := u.moveHistory, captured := u.captured,
               lastMove := u.lastMove, currentPlayer := u.currentPlayer) == u
    ensures r.moveHistory == u.game.history
    ensures v == Legacy ==> r.lastMove == u.lastMove && r.currentPlayer == u.currentPlayer
    ensures v == Current ==> r.currentPlayer == e.turn(u.game) && (r.lastMove.None? <==> u.game.history == [])
  {
    var h := u.game.history;
    var turn := e.turn(u.game);
    var base := u.(
      status := StatusText(StatusOf(v, u.gameStarted, e.flags(u.game), turn)),
      moveHistory := h,
      captured := CapturesOf(h));
    if v == Current then base.(currentPlayer := turn, lastMove := LastMoveOf(h)) else base
  }

  /** The effect after a handler: it runs when a new game was installed,
      and it never touches the game, the selection or a pending promotion. */
  function Settle(e: Engine, v: Variant, st: Step): (r: Ui)
    ensures !st.replaced ==> r == st.ui
    ensures r.game == st.ui.game && r.gameStarted == st.ui.gameStarted
    ensures r.selectedSquare == st.ui.selectedSquare && r.validMoves == st.ui.validMoves
    ensures r.promotionSquare == st.ui.promotionSquare && r.pendingMove == st.ui.pendingMove
  {
    if st.replaced then Refresh(e, v, st.ui) else st.ui
  }

  // ---------------------------------------------------------------------
  // The handlers' setters
  // ---------------------------------------------------------------------

  /** `moves.map(move => move.to)`. */
  function Destinations(ms: seq<LegalMove>): (ds: seq<Square>)
    ensures |ds| == |ms|
    ensures forall i :: 0 <= i < |ms| ==> ds[i] == ms[i].to
  {
    if ms == [] then [] else [ms[0].to] + Destinations(ms[1..])
  }

  /** `moves.find(m => m.to === square)`: the first legal move to `to`. */
  function FindMove(ms: seq<LegalMove>, to: Square): (r: Option<LegalMove>)
    ensures r.None? <==> forall j :: 0 <= j < |ms| ==> ms[j].to != to
    ensures r.Some? ==> r.value.to == to && r.value in ms
  {
    if ms == [] then None
    else if ms[0].to == to then Some(ms[0])
    else FindMove(ms[1..], to)
  }

  /** The found move is `ms[i]` for the least `i` whose destination is `to`. */
  lemma {:induction false} FindMoveFirst(ms: seq<LegalMove>, to: Square, i: nat)
    requires i < |ms| && ms[i].to == to
    requires forall k :: 0 <= k < i ==> ms[k].to != to
    ensures FindMove(ms, to) == Some(ms[i])
  {
    if i > 0 {
      assert ms[0].to != to;
      forall k | 0 <= k < i - 1 ensures ms[1..][k].to != to {
        assert ms[1..][k] == ms[k + 1];
      }
      FindMoveFirst(ms[1..], to, i - 1);
    }
  }

  /** `makeMove(from, to, promotion)`: a new game is installed exactly when
      the library accepts the move, and it is the accepted position without
      history; only the game and the last move are set. */
  function MakeMoveStep(e: Engine, v: Variant, u: Ui, from: Square, to: Square, promotion: string): (st: Step)
    ensures st.replaced <==> e.tryMove(u.game, from, to, promotion).Some?
    ensures !st.replaced ==> st.ui == u
    ensures st.replaced ==>
              st.ui.game == Game(e.tryMove(u.game, from, to, promotion).value.fen, [])
    ensures st.ui.(game := u.game, lastMove := u.lastMove) == u
  {
    match e.tryMove(u.game, from, to, promotion)
    case None => Step(u, false)
    case Some(g) =>
      var lastMove := if v == Current then Some(FromTo(from, to)) else u.lastMove;
      Step(u.(game := Rebuild(g.fen), lastMove := lastMove), true)
  }

  /** `handleSquareClick(square)`: it sets only the selection, the pending
      promotion, the game and the last move, and a game is installed only
      by the second click of a move. */
  function ClickStep(e: Engine, v: Variant, u: Ui, square: Square): (st: Step)
    ensures st.ui.(selectedSquare := u.selectedSquare, validMoves := u.validMoves,
                   promotionSquare := u.promotionSquare, pendingMove := u.pendingMove,
                   game := u.game, lastMove := u.lastMove) == u
    ensures st.replaced ==> u.selectedSquare.Some? && st.ui.selectedSquare.None? && st.ui.validMoves == []
    ensures st.ui.promotionSquare != u.promotionSquare ==>
              u.selectedSquare.Some? && st.ui.pendingMove == Some(FromTo(u.selectedSquare.value, square))
  {
    if !Active(v, u) || e.flags(u.game).gameOver || u.promotionSquare.Some? then Step(u, false)
    else match u.selectedSquare
      case Some(from) =>
        var st := match FindMove(e.moves(u.game, from), square)
          case None => Step(u, false)
          case Some(m) =>
            if m.promotion then
              Step(u.(promotionSquare := Some(square), pendingMove := Some(FromTo(from, square))), false)
            else MakeMoveStep(e, v, u, from, square, "q");
        Step(st.ui.(selectedSquare := None, validMoves := []), st.replaced)
      case None =>
        var piece := e.pieceAt(u.game, square);
        if piece.Some? && piece.value.color == e.turn(u.game) then
          Step(u.(selectedSquare := Some(square), validMoves := Destinations(e.moves(u.game, square))), false)
        else Step(u, false)
  }

  /** `handlePromotion(piece)`: with a pending move, the move is tried
      with the chosen piece and the pending promotion is cleared whatever
      the library answers. */
  function PromotionStep(e: Engine, v: Variant, u: Ui, piece: string): (st: Step)
    ensures u.pendingMove.None? ==> st == Step(u, false)
    ensures u.pendingMove.Some? ==>
              && st.ui.promotionSquare.None? && st.ui.pendingMove.None?
              && (st.replaced <==> e.tryMove(u.game, u.pendingMove.value.from, u.pendingMove.value.to, piece).Some?)
    ensures st.ui.(promotionSquare := u.promotionSquare, pendingMove := u.pendingMove,
                   game := u.game, lastMove := u.lastMove) == u
  {
    match u.pendingMove
    case None => Step(u, false)
    case Some(pm) =>
      var st := MakeMoveStep(e, v, u, pm.from, pm.to, piece);
      Step(st.ui.(promotionSquare := None, pendingMove := None), st.replaced)
  }

  /** `handleNewGame()`: always installs the initial game and clears the
      selection and any pending promotion; the current copy also clears the
      captures and the last move and marks the game started. */
  function NewGameStep(e: Engine, v: Variant, u: Ui): (st: Step)
    ensures st.replaced && st.ui.game == Initial(e)
    ensures st.ui.selectedSquare.None? && st.ui.validMoves == []
    ensures st.ui.promotionSquare.None? && st.ui.pendingMove.None?
    ensures v == Current ==> st.ui.gameStarted && st.ui.captured == Captured([], []) && st.ui.lastMove.None?
    ensures v == Legacy ==> st.ui.gameStarted == u.gameStarted && st.ui.lastMove == u.lastMove && st.ui.captured == u.captured
    ensures st.ui.status == u.status && st.ui.moveHistory == u.moveHistory && st.ui.currentPlayer == u.currentPlayer
  {
    var cleared := u.(game := Initial(e), selectedSquare := None, validMoves := [],
                      promotionSquare := None, pendingMove := None);
    if v == Current then
      Step(cleared.(captured := Captured([], []), lastMove := None, gameStarted := true), true)
    else Step(cleared, true)
  }

  /** `handleUndoMove()`. The legacy copy undoes in place and then always
      installs a game rebuilt from the position, undone or not. */
  function UndoStep(e: Engine, v: Variant, u: Ui): (st: Step)
    ensures st.ui.(game := u.game) == u
    ensures !st.replaced ==> st.ui == u
    ensures st.replaced ==> st.ui.game.history == []
    ensures v == Legacy ==> st.replaced
    ensures v == Current ==> (st.replaced <==> u.gameStarted && e.undo(u.game).Some?)
  {
    if v == Current then
      if !u.gameStarted then Step(u, false)
      else match e.undo(u.game)
        case None => Step(u, false)
        case Some(g) => Step(u.(game := Rebuild(g.fen)), true)
    else
      var g := match e.undo(u.game) case None => u.game case Some(g) => g;
      Step(u.(game := Rebuild(g.fen)), true)
  }

  // ---------------------------------------------------------------------
  // The handlers as whole steps
  // ---------------------------------------------------------------------

  /** The state right after mounting: the initial `useState` values, then
      the effect's first run. */
  function Mount(e: Engine, v: Variant): (r: Ui)
    ensures r.game == Initial(e) && !r.gameStarted
    ensures r.selectedSquare.None? && r.validMoves == [] && r.promotionSquare.None? && r.pendingMove.None?
    ensures v == Current ==> r.status == NotStartedText
    ensures r.moveHistory == [] && r.captured == Captured([], []) && r.lastMove.None?
  {
    var status := if v == Current then NotStartedText else "";
    Refresh(e, v, Ui(Initial(e), false, None, [], None, None, None, [], status, Captured([], []), White))
  }

  function Click(e: Engine, v: Variant, u: Ui, square: Square): Ui
  {
    Settle(e, v, ClickStep(e, v, u, square))
  }

  function MakeMove(e: Engine, v: Variant, u: Ui, from: Square, to: Square, promotion: string): Ui
  {
    Settle(e, v, MakeMoveStep(e, v, u, from, to, promotion))
  }

  function Promote(e: Engine, v: Variant, u: Ui, piece: string): Ui
  {
    Settle(e, v, PromotionStep(e, v, u, piece))
  }

  function NewGame(e: Engine, v: Variant, u: Ui): Ui
  {
    Settle(e, v, NewGameStep(e, v, u))
  }

  function UndoMove(e: Engine, v: Variant, u: Ui): Ui
  {
    Settle(e, v, UndoStep(e, v, u))
  }

  /** `canUndo` as passed to the side panel. */
  function CanUndo(v: Variant, u: Ui): bool
  {
    |u.moveHistory| > 0 && (v == Legacy || u.gameStarted)
  }

  /** The side panel's buttons; the legacy copy passes no started flag. */
  function ControlsShown(v: Variant, u: Ui): GameInfo.Controls
  {
    GameInfo.ControlsOf(v == Current && u.gameStarted, CanUndo(v, u))
  }

  // ---------------------------------------------------------------------
  // The state invariant
  // ---------------------------------------------------------------------

  /** The handler-maintained part of the invariant: a pending promotion and
      its square come together and agree; nothing is selected while a
      promotion is pending; no selection means no destinations; selection and
      promotion only in an active game; the game never carries history (it is
      always a freshly rebuilt one); the legacy copy has no last move. */
  predicate Consistent(v: Variant, u: Ui)
  {
    && (u.promotionSquare.Some? <==> u.pendingMove.Some?)
    && (u.pendingMove.Some? ==> u.promotionSquare == Some(u.pendingMove.value.to))
    && (u.promotionSquare.Some? ==> u.selectedSquare.None?)
    && (u.selectedSquare.None? ==> u.validMoves == [])
    && (u.selectedSquare.Some? || u.pendingMove.Some? ==> Active(v, u))
    && u.game.history == []
    && (v == Legacy ==> u.lastMove.None? && !u.gameStarted)
  }

  /** What holds of every state the controller reaches: the above, and the
      derived view matches the game. */
  predicate Invariant(e: Engine, v: Variant, u: Ui)
  {
    Consistent(v, u) && Refresh(e, v, u) == u
  }

  /** The effect turns a consistent state into an invariant one, provided the
      view was already current whenever the effect does not run. */
  lemma SettleKeeps(e: Engine, v: Variant, st: Step)
    requires Consistent(v, st.ui)
    requires st.replaced || Refresh(e, v, st.ui) == st.ui
    ensures Invariant(e, v, Settle(e, v, st))
  {
    RefreshIdempotent(e, v, st.ui);
  }

  lemma RefreshIdempotent(e: Engine, v: Variant, u: Ui)
    ensures Refresh(e, v, Refresh(e, v, u)) == Refresh(e, v, u)
  {
  }

  lemma MountInvariant(e: Engine, v: Variant)
    ensures Invariant(e, v, Mount(e, v))
  {
    var u := Ui(Initial(e), false, None, [], None, None, None, [],
                if v == Current then NotStartedText else "", Captured([], []), White);
    RefreshIdempotent(e, v, u);
  }

  lemma MakeMovePreserves(e: Engine, v: Variant, u: Ui, from: Square, to: Square, promotion: string)
    requires Invariant(e, v, u)
    ensures Invariant(e, v, MakeMove(e, v, u, from, to, promotion))
  {
    var st := MakeMoveStep(e, v, u, from, to, promotion);
    RefreshIdempotent(e, v, st.ui);
  }

  lemma ClickPreserves(e: Engine, v: Variant, u: Ui, square: Square)
    requires Invariant(e, v, u)
    ensures Invariant(e, v, Click(e, v, u, square))
  {
    var st := ClickStep(e, v, u, square);
    assert Consistent(v, st.ui);
    SettleKeeps(e, v, st);
  }

  lemma PromotePreserves(e: Engine, v: Variant, u: Ui, piece: string)
    requires Invariant(e, v, u)
    ensures Invariant(e, v, Promote(e, v, u, piece))
  {
    var st := PromotionStep(e, v, u, piece);
    RefreshIdempotent(e, v, st.ui);
  }

  lemma NewGamePreserves(e: Engine, v: Variant, u: Ui)
    requires Invariant(e, v, u)
    ensures Invariant(e, v, NewGame(e, v, u))
  {
    var st := NewGameStep(e, v, u);
    RefreshIdempotent(e, v, st.ui);
  }

  lemma UndoPreserves(e: Engine, v: Variant, u: Ui)
    requires Invariant(e, v, u)
    ensures Invariant(e, v, UndoMove(e, v, u))
  {
    var st := UndoStep(e, v, u);
    RefreshIdempotent(e, v, st.ui);
  }

  // ---------------------------------------------------------------------
  // What the handlers do
  // ---------------------------------------------------------------------

  /** Board clicks are inert before the game starts (current copy only),
      once the game is over, and while a promotion is pending. */
  lemma ClickInert(e: Engine, v: Variant, u: Ui, square: Square)
    requires !Active(v, u) || e.flags(u.game).gameOver || u.promotionSquare.Some?
    ensures Click(e, v, u, square) == u
  {
  }

  /** With nothing selected, a click changes state only on a piece of the
      side to move: it selects that square, and the destinations are the
      engine's moves from it, in the engine's order with repeats kept. */
  lemma ClickSelects(e: Engine, v: Variant, u: Ui, square: Square)
    requires Active(v, u) && !e.flags(u.game).gameOver && u.promotionSquare.None?
    requires u.selectedSquare.None?
    ensures var r := Click(e, v, u, square);
      var piece := e.pieceAt(u.game, square);
      var ms := e.moves(u.game, square);
      && (!(piece.Some? && piece.value.color == e.turn(u.game)) ==> r == u)
      && (piece.Some? && piece.value.color == e.turn(u.game) ==>
            && r == u.(selectedSquare := Some(square), validMoves := r.validMoves)
            && |r.validMoves| == |ms|
            && (forall i :: 0 <= i < |ms| ==> r.validMoves[i] == ms[i].to))
  {
  }

  /** With a square selected, every click ends with nothing selected, even a
      click on another piece of the side to move; what else happens depends
      on the first engine move from the selection to the clicked square. */
  lemma ClickWithSelection(e: Engine, v: Variant, u: Ui, square: Square)
    requires Active(v, u) && !e.flags(u.game).gameOver && u.promotionSquare.None?
    requires u.selectedSquare.Some?
    ensures var r := Click(e, v, u, square);
      var from := u.selectedSquare.value;
      var found := FindMove(e.moves(u.game, from), square);
      && r.selectedSquare.None? && r.validMoves == []
      && (found.None? ==> r == u.(selectedSquare := None, validMoves := []))
      && (found.Some? && found.value.promotion ==>
            r == u.(selectedSquare := None, validMoves := [],
                   promotionSquare := Some(square), pendingMove := Some(FromTo(from, square))))
      && (found.Some? && !found.value.promotion ==>
            r == MakeMove(e, v, u, from, square, "q").(selectedSquare := None, validMoves := []))
  {
  }

  /** A rejected move changes nothing. An accepted move installs the game
      rebuilt from the resulting position; its setter highlights the move,
      but the effect then overwrites the highlight from the rebuilt game's
      empty history, so no last move remains. */
  lemma MakeMoveOutcome(e: Engine, v: Variant, u: Ui, from: Square, to: Square, promotion: string)
    ensures var r := MakeMove(e, v, u, from, to, promotion);
      match e.tryMove(u.game, from, to, promotion)
      case None => r == u
      case Some(g) =>
        && r.game == Rebuild(g.fen) && r.game.history == []
        && (v == Current ==> MakeMoveStep(e, v, u, from, to, promotion).ui.lastMove == Some(FromTo(from, to)))
        && r.lastMove == (if v == Current then None else u.lastMove)
        && r.moveHistory == [] && r.captured == Captured([], [])
        && r.selectedSquare == u.selectedSquare && r.pendingMove == u.pendingMove
  {
  }

  /** Without a pending move the chooser does nothing; with one it attempts
      the move with the chosen piece and clears the pending promotion
      whether or not the engine accepts it. */
  lemma PromoteOutcome(e: Engine, v: Variant, u: Ui, piece: string)
    ensures var r := Promote(e, v, u, piece);
      && (u.pendingMove.None? ==> r == u)
      && (u.pendingMove.Some? ==>
            var pm := u.pendingMove.value;
            && r.promotionSquare.None? && r.pendingMove.None?
            && r == MakeMove(e, v, u, pm.from, pm.to, piece).(promotionSquare := None, pendingMove := None))
  {
    if u.pendingMove.Some? {
      var pm := u.pendingMove.value;
      var st := MakeMoveStep(e, v, u, pm.from, pm.to, piece);
      if st.replaced {
        assert Refresh(e, v, st.ui.(promotionSquare := None, pendingMove := None))
            == Refresh(e, v, st.ui).(promotionSquare := None, pendingMove := None);
      }
    }
  }

  /** A new game works from any state: a fresh initial game, nothing
      selected or pending, and (current copy) started with an empty view.
      In the current copy the result does not depend on the state at all. */
  lemma NewGameResets(e: Engine, v: Variant, u: Ui, other: Ui)
    ensures var r := NewGame(e, v, u);
      && r.game == Initial(e)
      && r.selectedSquare.None? && r.validMoves == []
      && r.promotionSquare.None? && r.pendingMove.None?
      && r.moveHistory == [] && r.captured == Captured([], [])
      && (v == Current ==> r.gameStarted && r.lastMove.None? && r == NewGame(e, v, other))
  {
  }

  /** Starting a new game twice is the same as starting it once. */
  lemma NewGameIdempotent(e: Engine, v: Variant, u: Ui)
    ensures NewGame(e, v, NewGame(e, v, u)) == NewGame(e, v, u)
  {
  }

  /** Undo never touches the selection or a pending promotion. In the
      current copy it does nothing before the game starts or when the
      engine reports nothing undone; the legacy copy always installs a game
      rebuilt from the position, undone or not. */
  lemma UndoOutcome(e: Engine, v: Variant, u: Ui)
    ensures var r := UndoMove(e, v, u);
      && r.selectedSquare == u.selectedSquare && r.validMoves == u.validMoves
      && r.promotionSquare == u.promotionSquare && r.pendingMove == u.pendingMove
      && (v == Current && (!u.gameStarted || e.undo(u.game).None?) ==> r == u)
      && (v == Current && u.gameStarted && e.undo(u.game).Some? ==> r.game == Rebuild(e.undo(u.game).value.fen))
      && (v == Legacy ==> r.game == Rebuild(if e.undo(u.game).Some? then e.undo(u.game).value.fen else u.game.fen))
  {
  }

  /** Because every installed game is rebuilt from a position, the game
      never has history: the move list and the captured lists stay empty,
      no last move is highlighted, and Undo stays disabled in both copies.
      The label reads 'Reset Game' exactly in a started current game. */
  lemma HistoryNeverShown(e: Engine, v: Variant, u: Ui)
    requires Invariant(e, v, u)
    ensures u.moveHistory == [] && u.captured == Captured([], []) && u.lastMove.None?
    ensures !CanUndo(v, u) && ControlsShown(v, u).undoDisabled
    ensures ControlsShown(v, u).newGameLabel == "Reset Game" <==> v == Current && u.gameStarted
  {
    assert u.moveHistory == Refresh(e, v, u).moveHistory;
    assert u.captured == Refresh(e, v, u).captured;
    if v == Current {
      assert u.lastMove == Refresh(e, v, u).lastMove;
    }
  }

  /** In every reachable state Undo changes nothing, in either copy, when
      the library's `undo` reports nothing exactly for a game without
      history: the held game never has history, so the current copy takes
      its no-op branch and the legacy copy reinstalls the same game. */
  lemma UndoIsNoOp(e: Engine, v: Variant, u: Ui)
    requires UndoFollowsHistory(e) && Invariant(e, v, u)
    ensures UndoMove(e, v, u) == u
  {
    assert e.undo(u.game).None?;
  }

  /** So a move attempt followed by Undo never restores the earlier
      position: the undo leaves the state after the move as it is. */
  lemma UndoAfterMove(e: Engine, v: Variant, u: Ui, from: Square, to: Square, promotion: string)
    requires UndoFollowsHistory(e) && Invariant(e, v, u)
    ensures var moved := MakeMove(e, v, u, from, to, promotion);
      UndoMove(e, v, moved) == moved
  {
    MakeMovePreserves(e, v, u, from, to, promotion);
    UndoIsNoOp(e, v, MakeMove(e, v, u, from, to, promotion));
  }
}
