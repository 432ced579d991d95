/** The side panel: the move list grouped into numbered white/black pairs,
    the annotation shown beside each move, and the two buttons. */
module GameInfo {
  import opened Basics
  import opened Engine

  /** One numbered line of the move list; `black` is absent when white's
      move is the last one played. */
  datatype MoveRow = MoveRow(number: nat, white: Move, black: Option<Move>)

  /** Line k is numbered k + 1 and holds moves 2k and 2k + 1 of the history. */
  predicate IsPairing(rows: seq<MoveRow>, history: seq<Move>)
  {
    && |rows| == (|history| + 1) / 2
    && forall k :: 0 <= k < |rows| ==> IsRow(rows[k], k, history)
  }

  predicate IsRow(row: MoveRow, k: nat, history: seq<Move>)
  {
    && row.number == k + 1
    && 2 * k < |history|
    && row.white == history[2 * k]
    && row.black == (if 2 * k + 1 < |history| then Some(history[2 * k + 1]) else None)
  }

  /** `groupedMoves`: steps through the history two moves at a time. */
  method GroupMoves(history: seq<Move>) returns (rows: seq<MoveRow>)
    ensures IsPairing(rows, history)
  {
    rows := [];
    var i := 0;
    while i < |history|
      invariant 0 <= i <= |history| + 1 && i == 2 * |rows|
      invariant forall k :: 0 <= k < |rows| ==> IsRow(rows[k], k, history)
    {
      var black := if i + 1 < |history| then Some(history[i + 1]) else None;
      rows := rows + [MoveRow(i / 2 + 1, history[i], black)];
      i := i + 2;
    }
  }

  /** The moves of the list read line by line, white then black. */
  function Flatten(rows: seq<MoveRow>): seq<Move>
  {
    if rows == [] then []
    else
      var last := rows[|rows| - 1];
      Flatten(rows[..|rows| - 1]) + [last.white] + (if last.black.Some? then [last.black.value] else [])
  }

  lemma {:induction false} FlattenPrefix(rows: seq<MoveRow>, history: seq<Move>, m: nat)
    requires IsPairing(rows, history) && m <= |rows|
    ensures 2 * m <= |history| + 1
    ensures Flatten(rows[..m]) == history[..if 2 * m <= |history| then 2 * m else |history|]
  {
    if m > 0 {
      FlattenPrefix(rows, history, m - 1);
      assert rows[..m][..m - 1] == rows[..m - 1];
      assert IsRow(rows[m - 1], m - 1, history);
      var i := 2 * (m - 1);
      if i + 1 < |history| {
        assert history[..i + 2] == history[..i] + [history[i]] + [history[i + 1]];
      } else {
        assert history[..i + 1] == history[..i] + [history[i]];
      }
    }
  }

  /** Reading the list back, skipping an absent black move, gives the
      history exactly. */
  lemma PairingFlattens(rows: seq<MoveRow>, history: seq<Move>)
    requires IsPairing(rows, history)
    ensures Flatten(rows) == history
  {
    FlattenPrefix(rows, history, |rows|);
    assert rows[..|rows|] == rows;
    assert history[..|history|] == history;
  }

  /** Only the last line can lack a black move, and it does exactly when
      an odd number of moves has been played. */
  lemma BlackAbsentOnlyLast(rows: seq<MoveRow>, history: seq<Move>, k: nat)
    requires IsPairing(rows, history) && k < |rows|
    ensures rows[k].black.None? <==> k == |rows| - 1 && |history| % 2 == 1
  {
    assert IsRow(rows[k], k, history);
  }

  /** The line structure is determined by the history. */
  lemma PairingUnique(rows: seq<MoveRow>, other: seq<MoveRow>, history: seq<Move>)
    requires IsPairing(rows, history) && IsPairing(other, history)
    ensures rows == other
  {
    forall k | 0 <= k < |rows| ensures rows[k] == other[k] {
      assert IsRow(rows[k], k, history) && IsRow(other[k], k, history);
    }
  }

  /** The annotation shown beside a move. */
  datatype Evaluation = Checkmate | Check | Capture | Castle

  /** `getEvaluation`: mate, then check, then capture, then castling. */
  function Evaluate(move: Option<Move>): (r: Option<Evaluation>)
    ensures move.None? ==> r.None?
    ensures r == Some(Checkmate) <==> move.Some? && '#' in move.value.san
    ensures r == Some(Check) <==> move.Some? && '#' !in move.value.san && '+' in move.value.san
    ensures r == Some(Capture) <==>
              move.Some? && '#' !in move.value.san && '+' !in move.value.san && move.value.captured.Some?
    ensures r == Some(Castle) ==> move.Some? && move.value.san in {"O-O", "O-O-O"}
  {
    if move.None? then None
    else if '#' in move.value.san then Some(Checkmate)
    else if '+' in move.value.san then Some(Check)
    else if move.value.captured.Some? then Some(Capture)
    else if move.value.san == "O-O" || move.value.san == "O-O-O" then Some(Castle)
    else None
  }

  /** Check outranks capture and castling: a capturing check and a castling
      move that gives check are both annotated 'Check'. */
  lemma CheckOutranks(m: Move)
    requires '+' in m.san && '#' !in m.san
    ensures Evaluate(Some(m)) == Some(Check)
  {
  }

  /** A quiet castling move is annotated 'Castle'. */
  lemma CastleAnnotated(m: Move)
    requires m.san in {"O-O", "O-O-O"} && m.captured.None?
    ensures Evaluate(Some(m)) == Some(Castle)
  {
    assert '#' !in m.san && '+' !in m.san;
  }

  /** The two buttons: the first one's label, and whether Undo is disabled. */
  datatype Controls = Controls(newGameLabel: string, undoDisabled: bool)

  function ControlsOf(gameStarted: bool, canUndo: bool): (c: Controls)
    ensures c.undoDisabled != canUndo
    ensures c.newGameLabel == "Reset Game" <==> gameStarted
  {
    Controls(if gameStarted then "Reset Game" else "New Game", !canUndo)
  }
}
