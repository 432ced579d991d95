# Chess board controller — a Dafny model

This project models the browser chess game in `src/`: the React component
that owns the game state (`src/App.tsx`), the older copy of that component
(`src/components/App.tsx`), the board view's FEN decoder and square styling
(`src/components/Chessboard.tsx`), and the side panel's move list, move
annotations and buttons (`src/components/GameInfo.tsx`).

The chess rules come from the chess.js library. The model does not contain
them. Module `Engine` describes the library as a record of total functions:
side to move, piece on a square, legal moves from a square, play a move, undo,
and the status flags. Every theorem holds for every such record. The model
assumes these facts about the library; each is listed under "## Left out":

- `new Chess()` and `new Chess(fen)` build a game with an empty history
  (`Engine.Initial`, `Engine.Rebuild`).
- A move the library rejects, and an undo that undoes nothing, leave the game
  as it was (the `Option` results of `tryMove` and `undo`).
- `undo` reports nothing when the game has no history
  (`Engine.UndoFollowsHistory`). Only the lemmas that name it use it.

Modules:

- `Basics`: sides, pieces, square names and `{from, to}` pairs. A square name
  is a non-empty string, so the source's truthiness test on a `string | null`
  value is a null test.
- `Chessboard`: `parseFen` as an imperative method with nested loops. It is
  proved equal to a recursive decoder, and the layout that decoder produces is
  proved square by square for well-formed placements. The module also has the
  square classes and the glyph table. JavaScript's `split`, `%` and `indexOf`
  are written out.
- `GameInfo`: the move pairing loop, proved to be the unique pairing that
  flattens back to the history. It also has the evaluation badge and the
  control buttons.
- `App`: both App components as one transition system, parameterised by
  `Variant` (`Current` is `src/App.tsx`, `Legacy` is
  `src/components/App.tsx`).
  - A handler is its setters (`...Step`), followed by the `[game]` effect.
    The effect (`updateGameState`) runs exactly when a new game object was
    installed (`Settle`).
  - `Invariant` is kept by mounting and by every handler.
- `Controller`: the component as a class.
  - Its fields are the state variables.
  - Its handlers update them in place.
  - Each handler's new state is proved to be the `App` transition of the old
    state.

What the proofs show about the application as written:

- Every accepted move installs `new Chess(game.fen())`. So does an undo in
  `src/App.tsx` when `game.undo()` returns a move, and every undo in the older
  copy. So the game the component holds never has any history
  (`App.HistoryNeverShown`).
  As a result:
  - the move list and both captured-piece lists are always empty;
  - in `src/App.tsx` the last-move highlight set by `makeMove` is cleared by
    the effect that follows it;
  - the Undo button is always disabled;
  - if `undo` reports nothing whenever a game has no history, Undo changes
    nothing in any reachable state of either copy (`App.UndoIsNoOp`). In
    particular a move can never be undone (`App.UndoAfterMove`).
- The light/dark shading is a checkerboard (`Chessboard.Checkered`). The
  class `light` goes to squares whose file and rank indices have an odd sum
  (`Chessboard.SquareShade`). Ranks are indexed from rank 8, so a1 and h8
  get `light` and a8 and h1 get `dark`. Which colour each class shows is
  decided by a stylesheet that is not part of this model.

## Model

| member | source | states |
|---|---|---|
| `Chessboard.Split` | src/components/Chessboard.tsx:23-24 | JavaScript's `split` on one character; the parts are never fewer than one (its partners are SplitJoin and SplitPartsClean) |
| `Chessboard.IsDigit` | src/components/Chessboard.tsx:35 | the `/\d/` test: an ASCII digit |
| `Chessboard.Placement` | src/components/Chessboard.tsx:23 | the piece-placement field: a prefix of the position text holding no space |
| `Chessboard.Rows` | src/components/Chessboard.tsx:24 | the ranks: at least one, none holding a '/' or a space |
| `Chessboard.Advance` | src/components/Chessboard.tsx:35-46 | a digit moves the file cursor by the value it is the numeral of (at most 9); any other character moves it by one |
| `Chessboard.Cursor` | src/components/Chessboard.tsx:29-46 | the value of `fileIndex` after a prefix of a row (its partner is CursorIsWidth) |
| `Chessboard.SquareKey` | src/components/Chessboard.tsx:40-41 | `files[fileIndex] + rank`, with "undefined" past file h (its partners are RowMapKeys and FileLetter) |
| `Chessboard.RowInto` | src/components/Chessboard.tsx:32-48 | one row's loop writing into the board (its partner is RowIntoUnion) |
| `Chessboard.PlaceRows` | src/components/Chessboard.tsx:28-49 | the board after the first n ranks (its partners are PlaceRowsAt, PlaceRowsKeys and PlaceRowsSize) |
| `Chessboard.DecodeFen` | src/components/Chessboard.tsx:22-52 | `parseFen` as a value (its partners are ParseFen, DecodeSquare and DecodeKeysAndSize) |
| `Chessboard.CharAt` | src/components/Chessboard.tsx:57-58 | `square[i]`, absent past the end of the name |
| `Chessboard.IsLight` | src/components/Chessboard.tsx:57-62 | the `isLight` test with `indexOf` and JavaScript's `%` (its partners are SquareShade and Checkered) |
| `Chessboard.SplitJoin` | src/components/Chessboard.tsx:23-24 | splitting at a separator and joining back gives the original string |
| `Chessboard.SplitPartsClean` | src/components/Chessboard.tsx:23-24 | no part of a split contains the separator |
| `Chessboard.SplitHead` | src/components/Chessboard.tsx:23 | the first field of a split is the text before the first separator |
| `Chessboard.SplitWithoutSeparator` | src/components/Chessboard.tsx:24 | a string without the separator splits into itself alone |
| `Chessboard.OtherFieldsIgnored` | src/components/Chessboard.tsx:23-24 | the decoder reads only the piece-placement field: whatever follows the first space does not change the rows |
| `Chessboard.DigitValue` | src/components/Chessboard.tsx:35-37 | a digit's value d is the number whose numeral is the digit, so the cursor advances by d (at most 9) |
| `Chessboard.ToUpper` | src/components/Chessboard.tsx:42 | a lower-case letter becomes the upper-case letter at the same place in the alphabet; any other character is unchanged |
| `Chessboard.ToLower` | src/components/Chessboard.tsx:43 | an upper-case letter becomes the lower-case letter at the same place in the alphabet, which upper-cases back to it; any other character is unchanged |
| `Chessboard.CaseRoundTrip` | src/components/Chessboard.tsx:42-43 | lower-casing undoes upper-casing on lower-case letters |
| `Chessboard.PieceOf` | src/components/Chessboard.tsx:42-43 | a lower-case letter is a black piece of that kind; an upper-case letter is a white piece of the same letter in lower case (so 'N' is a white 'n'); any other character is its own upper case, so it is a white piece whose kind is the character itself |
| `Chessboard.FileLetter` | src/components/Chessboard.tsx:18 | file index f names the letter 'a'+f |
| `Chessboard.RankDigit` | src/components/Chessboard.tsx:19 | rank index k names the digit '8'-k |
| `Chessboard.FilesDistinct` | src/components/Chessboard.tsx:18 | distinct file indices name distinct letters |
| `Chessboard.RanksDistinct` | src/components/Chessboard.tsx:19 | distinct rank indices name distinct digits |
| `Chessboard.ParseFen` | src/components/Chessboard.tsx:22-52 | the nested loops build exactly the board of the recursive decoder, for any text with at least eight rows |
| `Chessboard.CursorIsWidth` | src/components/Chessboard.tsx:32-48 | the file cursor after a row equals the number of squares the row describes |
| `Chessboard.RowIntoUnion` | src/components/Chessboard.tsx:45 | writing a row into a board is the board overridden by that row's pieces |
| `Chessboard.RowMapAt` | src/components/Chessboard.tsx:39-46 | on a row that fits, file f holds a piece exactly when the row's f-th square is a letter, and it is that letter's piece |
| `Chessboard.RowMapKeys` | src/components/Chessboard.tsx:40-41 | every key a fitting row writes is a file letter followed by that row's rank |
| `Chessboard.RowMapSize` | src/components/Chessboard.tsx:38-46 | a fitting row writes one entry per piece letter, none overwritten |
| `Chessboard.OtherRankUntouched` | src/components/Chessboard.tsx:40-45 | a fitting row writes no square of another rank |
| `Chessboard.NewRowDisjoint` | src/components/Chessboard.tsx:28-49 | a row writes no square that an earlier row wrote |
| `Chessboard.PlaceRowsAt` | src/components/Chessboard.tsx:28-49 | after n rows, a square holds a piece exactly when its own row put one there |
| `Chessboard.PlaceRowsKeys` | src/components/Chessboard.tsx:28-49 | after n rows, every key names a file and one of the first n ranks |
| `Chessboard.PlaceRowsSize` | src/components/Chessboard.tsx:28-49 | after n rows, the board has one entry per piece letter in those rows |
| `Chessboard.DecodeSquare` | src/components/Chessboard.tsx:22-52 | for a well-formed placement, each of the 64 squares holds a piece exactly when the placement says so, and holds that piece |
| `Chessboard.DecodeKeysAndSize` | src/components/Chessboard.tsx:22-52 | for a well-formed placement, every key is a real square and the board has one entry per piece letter |
| `Chessboard.IndexOf` | src/components/Chessboard.tsx:59-60 | the index is -1 or a position holding the character searched for |
| `Chessboard.IndexOfFirst` | src/components/Chessboard.tsx:59-60 | the index found is at or before every occurrence |
| `Chessboard.JsRem` | src/components/Chessboard.tsx:62 | the remainder has the sign of the dividend and is smaller than the divisor in size, and the dividend minus it is a multiple of the divisor, as with JavaScript's `%` |
| `Chessboard.SquareClassesOf` | src/components/Chessboard.tsx:56-75 | a square is a valid move or a valid capture exactly when it is a destination, a capture exactly when it is also occupied, never both; selected and last-move classes exactly when the square is named by them |
| `Chessboard.SquareShade` | src/components/Chessboard.tsx:62 | a board square is light exactly when its file and rank indices have an odd sum |
| `Chessboard.Checkered` | src/components/Chessboard.tsx:62 | horizontally or vertically adjacent squares have different shades |
| `Chessboard.PieceSymbol` | src/components/Chessboard.tsx:78-88 | the glyph is non-empty exactly when colour and kind form a key of the table, and it is that key's glyph |
| `Chessboard.GlyphsDistinct` | src/components/Chessboard.tsx:79-86 | no two keys share a glyph |
| `Chessboard.GlyphOfPiece` | src/components/Chessboard.tsx:78-88 | a piece of either side has a glyph exactly when its kind is one of p, n, b, r, q, k |
| `GameInfo.GroupMoves` | src/components/GameInfo.tsx:25-32 | the loop yields rows numbered 1, 2, ... with white the (2k)-th move and black the next one, absent only past the end |
| `GameInfo.FlattenPrefix` | src/components/GameInfo.tsx:25-32 | the first m rows read back as the history's first 2m moves, or all of them |
| `GameInfo.PairingFlattens` | src/components/GameInfo.tsx:25-32 | reading the rows back in order gives the history |
| `GameInfo.BlackAbsentOnlyLast` | src/components/GameInfo.tsx:30 | a row lacks a black move exactly when it is the last row and the history has odd length |
| `GameInfo.PairingUnique` | src/components/GameInfo.tsx:25-32 | only one list of rows pairs a given history |
| `GameInfo.Evaluate` | src/components/GameInfo.tsx:34-41 | no move gets no badge; mate exactly when the SAN has '#'; check exactly when it has '+' and no '#'; capture exactly when neither and a piece was taken; castle only for O-O or O-O-O |
| `GameInfo.CheckOutranks` | src/components/GameInfo.tsx:36-37 | a checking move without mate is annotated check, even a castling move with check |
| `GameInfo.CastleAnnotated` | src/components/GameInfo.tsx:39 | a quiet castling move is annotated castle |
| `GameInfo.ControlsOf` | src/components/GameInfo.tsx:62-76 | undo is disabled exactly when it cannot undo; the new-game button reads "Reset Game" exactly when a game is running |
| `App.StatusText` | src/App.tsx:37-52 | the status line's text, draw suffixes in the source's order (its partners are StatusTextLength, StatusTextInjective and Controller.StatusLine) |
| `App.CapturesOf` | src/App.tsx:69-80 | the captured lists as the loop leaves them (its partners are CapturesPartition and CapturesComplete) |
| `App.LastMoveOf` | src/App.tsx:58-67 | the last history entry's squares, or none for an empty history |
| `App.Refresh` | src/App.tsx:32-81 | only the derived view changes: status, move list, captures and, in the current copy only, current player and last move; the move list is the game's history |
| `App.Settle` | src/App.tsx:28-30 | the effect runs only after a new game is installed, and never touches the game, the started flag, the selection or a pending promotion |
| `App.MakeMoveStep` | src/App.tsx:128-142 | a game is installed exactly when the library accepts the move, it is the accepted position without history, and only the game and the last move are set |
| `App.ClickStep` | src/App.tsx:83-126 | only the selection, pending promotion, game and last move are set; a game is installed only by a second click, which clears the selection; a promotion opens only from a selection, pending from it to the clicked square |
| `App.PromotionStep` | src/App.tsx:144-150 | without a pending move nothing happens; with one, the pending promotion is cleared and a game is installed exactly when the library accepts the move with the chosen piece |
| `App.NewGameStep` | src/App.tsx:152-164 | always installs the initial game and clears selection and promotion; the current copy also clears captures and last move and starts the game; the older copy leaves the started flag, last move and captures as they were; the view is left to the effect |
| `App.UndoStep` | src/App.tsx:166-175 | only the game changes; an installed game has no history; the older copy always installs one, the current copy exactly when started and the library undid a move |
| `App.Mount` | src/App.tsx:9-30 | the initial game, not started, nothing selected or pending, an empty move list, no captures, no last move, and in the current copy the start prompt |
| `App.CanUndo` | src/App.tsx:234 | `canUndo`: a non-empty move list, and in the current copy a started game (its partner is HistoryNeverShown) |
| `App.ControlsShown` | src/App.tsx:228-237 | the side panel's buttons for this state (its partner is HistoryNeverShown) |
| `App.Click` | src/App.tsx:83-126 | `handleSquareClick` followed by the `[game]` effect (its partners are ClickPreserves, ClickInert, ClickSelects and ClickWithSelection) |
| `App.MakeMove` | src/App.tsx:128-142 | `makeMove` followed by the effect (its partners are MakeMovePreserves and MakeMoveOutcome) |
| `App.Promote` | src/App.tsx:144-150 | `handlePromotion` followed by the effect (its partners are PromotePreserves and PromoteOutcome) |
| `App.NewGame` | src/App.tsx:152-164 | `handleNewGame` followed by the effect (its partners are NewGamePreserves, NewGameResets and NewGameIdempotent) |
| `App.UndoMove` | src/App.tsx:166-175 | `handleUndoMove` followed by the effect (its partners are UndoPreserves, UndoOutcome, UndoIsNoOp and UndoAfterMove) |
| `App.StatusOf` | src/App.tsx:37-51 | before the start the prompt; otherwise mate names the opponent of the side to move, a draw carries its three reasons, then check, then the side to move; mate is reported whenever the game is running |
| `App.StatusTextLength` | src/App.tsx:37-51 | each kind of status line has a fixed length, a draw line one length per combination of reasons |
| `App.StatusTextInjective` | src/App.tsx:37-52 | different statuses produce different texts |
| `App.CapturedByAppend` | src/App.tsx:70-80 | one more move adds its captured piece, if any, to its mover's list |
| `App.CapturesPartition` | src/App.tsx:70-80 | the black list holds, in order, what white captured, and the white list what black captured |
| `App.CapturesComplete` | src/App.tsx:70-80 | together the two lists hold every captured piece of the history, as a multiset |
| `App.CapturesSplit` | src/App.tsx:70-80 | the pieces captured by each side add up to all captured pieces |
| `App.Destinations` | src/App.tsx:123 | one destination per legal move, in the same order |
| `App.FindMove` | src/App.tsx:94 | no move is found exactly when no legal move goes to the square; a found move goes there and is one of the legal moves |
| `App.FindMoveFirst` | src/App.tsx:94 | the move found is `ms[i]` for the least `i` whose destination is the square |
| `App.SettleKeeps` | src/App.tsx:28-30 | the effect after a handler turns a consistent state into one whose view matches the game |
| `App.RefreshIdempotent` | src/App.tsx:32-81 | recomputing the derived view a second time changes nothing |
| `App.MountInvariant` | src/App.tsx:9-30 | the state after mounting satisfies the invariant |
| `App.MakeMovePreserves` | src/App.tsx:128-142 | `makeMove` and its effect keep the invariant |
| `App.ClickPreserves` | src/App.tsx:83-126 | a board click and its effect keep the invariant |
| `App.PromotePreserves` | src/App.tsx:144-150 | choosing a promotion piece keeps the invariant |
| `App.NewGamePreserves` | src/App.tsx:152-164 | a new game keeps the invariant |
| `App.UndoPreserves` | src/App.tsx:166-175 | an undo keeps the invariant |
| `App.ClickInert` | src/App.tsx:84 | a click before the start, after the game is over or while a promotion is pending changes nothing |
| `App.ClickSelects` | src/App.tsx:113-125 | with nothing selected, a click on a piece of the side to move selects it and shows exactly its destinations; any other click changes nothing |
| `App.ClickWithSelection` | src/App.tsx:87-111 | with a selection, a click always clears it; a destination needing promotion opens the choice; another destination plays the move with a queen as default; other squares change nothing else |
| `App.MakeMoveOutcome` | src/App.tsx:128-142 | a rejected move changes nothing; an accepted one installs a game rebuilt from the new position, and the effect leaves no history, no captures and, in the current copy, no last move |
| `App.PromoteOutcome` | src/App.tsx:144-150 | without a pending move nothing happens; with one, the move is played with the chosen piece and the pending state is cleared |
| `App.NewGameResets` | src/App.tsx:152-164 | a new game starts from the initial position with no selection, no pending promotion, no history and no captures; in the current copy it is started and independent of the previous state |
| `App.NewGameIdempotent` | src/App.tsx:152-164 | pressing new game twice is the same as pressing it once |
| `App.UndoOutcome` | src/App.tsx:166-175 | undo never touches the selection or a pending promotion; before the start or without anything to undo it changes nothing in the current copy; otherwise the game is rebuilt from the undone position |
| `App.HistoryNeverShown` | src/App.tsx:55-80 | in every reachable state the move list and captured lists are empty, there is no last move, undo is disabled, and the new-game button reads "Reset Game" exactly when the current copy has started |
| `App.UndoIsNoOp` | src/App.tsx:166-175 | if `undo` reports nothing whenever a game has no history, Undo leaves every reachable state of either copy unchanged |
| `App.UndoAfterMove` | src/App.tsx:166-175 | under the same assumption, Undo right after a move attempt leaves the state after the move unchanged |
| `Controller.StatusLine` | src/App.tsx:37-52 | the status text built by reassignment is the text of the status the flags determine |
| `Controller.DrawLine` | src/App.tsx:43-46 | the draw text gains one suffix per reason, in the source's order |
| `Controller.CollectCaptures` | src/App.tsx:70-80 | the loop that pushes captured pieces yields the captured lists of the history |
| `Controller.ChessApp.constructor` | src/App.tsx:9-30 | the fields start as the mounted state, which satisfies the invariant |
| `Controller.ChessApp.UpdateGameState` | src/App.tsx:32-81 | the fields become the derived view recomputed from the game |
| `Controller.ChessApp.MakeMove` | src/App.tsx:128-142 | the fields and the flag saying a new game was installed are the setters of `makeMove` |
| `Controller.ChessApp.HandleSquareClick` | src/App.tsx:83-126 | the click handler followed by its effect, keeping the invariant |
| `Controller.ChessApp.HandlePromotion` | src/App.tsx:144-150 | the promotion handler followed by its effect, keeping the invariant |
| `Controller.ChessApp.HandleNewGame` | src/App.tsx:152-164 | the new-game handler followed by its effect, keeping the invariant |
| `Controller.ChessApp.HandleUndoMove` | src/App.tsx:166-175 | the undo handler followed by its effect, keeping the invariant |

Every `App` and `Controller` member also covers `src/components/App.tsx`, the
older copy, through `Variant.Legacy`. Its lines are:

- `updateGameState`: 21-54
- `handleSquareClick`: 56-99
- `makeMove`: 101-108
- `handlePromotion`: 110-116
- `handleNewGame`: 118-124
- `handleUndoMove`: 126-129
- the side panel's props: 143-150

That copy has no started flag, no current player and no last move. It always
installs a rebuilt game on undo, and it passes no started flag to the panel.

## Left out

- The chess rules are not modelled. Legal moves, move application, undo and
  the status flags are parameters of the model (`Engine.Engine`).
- `Engine.Initial`, `Engine.Rebuild`: it is assumed, not derived, that
  `new Chess()` and `new Chess(fen)` start with an empty history. chess.js is
  not part of this model.
- `Engine.Engine`: it is assumed that a move the library rejects (it throws)
  and an undo with nothing to undo (it returns null) leave the game object as
  it was. `tryMove` and `undo` return no game in those cases, and the model
  keeps the old one.
- `Engine.UndoFollowsHistory`: it is assumed that `undo` returns null when
  the game has no history. `App.UndoIsNoOp` and `App.UndoAfterMove`
  require it; nothing else does.
- `Chessboard.ParseFen` requires at least eight rows. With fewer rows the
  source reads `rows[rankIndex]` as undefined and throws. The model does not
  include that exception.
- The square-by-square layout (`Chessboard.DecodeSquare`,
  `Chessboard.DecodeKeysAndSize`) is stated for placements of exactly eight
  rows with eight squares each. For other placements the decoder is still
  modelled, including the "undefined" file in a key past file h, but the
  layout is not stated.
- The case test and case change of a piece letter cover ASCII only. Unicode
  case mapping of other characters is not modelled.
- In the glyph lookup, keys inherited from the JavaScript object prototype
  are not modelled.
- Not modelled: the piece-image preloading (`src/utils/initPieces.ts`,
  `src/setupPieces.ts`, the first effect in `src/App.tsx`) and the build
  configuration (`vite.config.ts`).
- No markup is modelled: the JSX, CSS classes beyond the square classes, the
  promotion dialog's layout and the captured-piece thumbnails.
- Console logging is left out.
- React's render scheduling is left out. Each handler's setters are applied
  together, and then the `[game]` effect runs once, reading the updated state.
- `Controller.ChessApp.UpdateGameState`: in the older copy it does not touch
  the current-player field. That field, and the started flag, exist in the
  model only for the current copy and stay at their initial values in the
  older one.
