/** The board component: the FEN piece-placement decoder, the per-square
    highlight classes and the fallback piece glyphs. */
module Chessboard {
  import opened Basics

  /** File letters left to right, and rank digits top to bottom: row 0 of a
      placement is rank 8. */
  const Files: string := "abcdefgh"
  const Ranks: string := "87654321"

  /** The decoded board: square name to piece; empty squares are absent. */
  type Board = map<string, Piece>

  // ---------------------------------------------------------------------
  // Splitting text the way JavaScript's `split` does for a one-character
  // separator: the result is never empty, "" gives [""], "a/" gives ["a", ""].
  // ---------------------------------------------------------------------

  function Split(s: string, sep: char): (parts: seq<string>)
    ensures |parts| >= 1
  {
    if s == [] then [[]]
    else
      var rest := Split(s[1..], sep);
      if s[0] == sep then [[]] + rest else [[s[0]] + rest[0]] + rest[1..]
  }

  function Join(parts: seq<string>, sep: char): string
    requires |parts| >= 1
  {
    if |parts| == 1 then parts[0] else parts[0] + [sep] + Join(parts[1..], sep)
  }

  /** Splitting loses nothing: joining the parts back gives the text. */
  lemma {:induction false} SplitJoin(s: string, sep: char)
    ensures Join(Split(s, sep), sep) == s
  {
    if s != [] {
      SplitJoin(s[1..], sep);
      var rest := Split(s[1..], sep);
      assert s == [s[0]] + s[1..];
      if s[0] == sep {
        assert Split(s, sep) == [[]] + rest;
      } else {
        JoinConsHead(s[0], rest, sep);
      }
    }
  }

  /** Prefixing a character to the first part prefixes it to the joined text. */
  lemma JoinConsHead(c: char, parts: seq<string>, sep: char)
    requires |parts| >= 1
    ensures Join([[c] + parts[0]] + parts[1..], sep) == [c] + Join(parts, sep)
  {
    var longer := [[c] + parts[0]] + parts[1..];
    if |parts| > 1 {
      assert longer[1..] == parts[1..];
    }
  }

  /** No part of a split contains the separator. */
  lemma {:induction false} SplitPartsClean(s: string, sep: char)
    ensures forall k :: 0 <= k < |Split(s, sep)| ==> sep !in Split(s, sep)[k]
  {
    if s != [] {
      SplitPartsClean(s[1..], sep);
      var rest := Split(s[1..], sep);
      var parts := Split(s, sep);
      if s[0] == sep {
        assert parts == [[]] + rest;
      } else {
        assert parts == [[s[0]] + rest[0]] + rest[1..];
        forall k | 0 <= k < |parts| ensures sep !in parts[k] {
          if k == 0 {
            assert sep !in rest[0];
          } else {
            assert parts[k] == rest[k];
          }
        }
      }
    }
  }

  /** The first part of `p + [sep] + rest` is `p` when `p` has no separator. */
  lemma {:induction false} SplitHead(p: string, sep: char, rest: string)
    requires sep !in p
    ensures Split(p + [sep] + rest, sep)[0] == p
  {
    var s := p + [sep] + rest;
    if p == [] {
      assert s[0] == sep;
    } else {
      assert s[1..] == p[1..] + [sep] + rest;
      SplitHead(p[1..], sep, rest);
      assert p == [p[0]] + p[1..];
    }
  }

  /** Text without the separator splits into itself alone. */
  lemma {:induction false} SplitWithoutSeparator(p: string, sep: char)
    requires sep !in p
    ensures Split(p, sep) == [p]
  {
    if p != [] {
      SplitWithoutSeparator(p[1..], sep);
      assert p == [p[0]] + p[1..];
    }
  }

  /** The piece-placement field: the text before the first space. */
  function Placement(fen: string): (field: string)
    ensures ' ' !in field
    ensures field <= fen
  {
    SplitPartsClean(fen, ' ');
    SplitJoin(fen, ' ');
    var parts := Split(fen, ' ');
    assert |parts| == 1 || Join(parts, ' ') == parts[0] + [' '] + Join(parts[1..], ' ');
    parts[0]
  }

  /** The '/'-separated rows of the placement field. */
  function Rows(fen: string): (rows: seq<string>)
    ensures |rows| >= 1
    ensures forall k :: 0 <= k < |rows| ==> '/' !in rows[k] && ' ' !in rows[k]
  {
    SplitPartsClean(Placement(fen), '/');
    SplitJoin(Placement(fen), '/');
    var rows := Split(Placement(fen), '/');
    assert Join(rows, '/') == Placement(fen);
    forall k | 0 <= k < |rows| ensures ' ' !in rows[k] { JoinHasPart(rows, '/', k); }
    rows
  }

  /** Every part occurs within the joined text. */
  lemma {:induction false} JoinHasPart(parts: seq<string>, sep: char, k: nat)
    requires k < |parts|
    ensures forall c :: c in parts[k] ==> c in Join(parts, sep)
  {
    if |parts| > 1 {
      var tail := Join(parts[1..], sep);
      assert Join(parts, sep) == parts[0] + [sep] + tail;
      if k > 0 { JoinHasPart(parts[1..], sep, k - 1); }
    }
  }

  /** Only the first field is decoded: whatever follows the first space
      (side to move, castling, en passant, clocks) does not change the rows. */
  lemma OtherFieldsIgnored(placement: string, rest: string)
    requires ' ' !in placement
    ensures Placement(placement + " " + rest) == placement
    ensures Rows(placement + " " + rest) == Rows(placement)
  {
    SplitHead(placement, ' ', rest);
    SplitWithoutSeparator(placement, ' ');
  }

  // ---------------------------------------------------------------------
  // Characters
  // ---------------------------------------------------------------------

  /** `/\d/.test(char)`: an ASCII digit. */
  predicate IsDigit(c: char)
  {
    '0' <= c <= '9'
  }

  /** `parseInt(char, 10)` on a digit: the value whose numeral is `c`. */
  function DigitValue(c: char): (d: nat)
    requires IsDigit(c)
    ensures d <= 9
    ensures (('0' as int) + d) as char == c
  {
    (c as int) - ('0' as int)
  }

  /** How far one character moves the file cursor: a digit skips that many
      empty squares, any other character fills one. */
  function Advance(c: char): (n: nat)
    ensures !IsDigit(c) ==> n == 1
    ensures IsDigit(c) ==> n <= 9 && (('0' as int) + n) as char == c
  {
    if IsDigit(c) then DigitValue(c) else 1
  }

  /** The value of `fileIndex` after the characters of `s` are read. */
  function Cursor(s: string): nat
  {
    if s == [] then 0 else Cursor(s[..|s| - 1]) + Advance(s[|s| - 1])
  }

  /** `toUpperCase` and `toLowerCase`, on ASCII letters: a letter of one
      case goes to a letter of the other, anything else is left alone. */
  function ToUpper(c: char): (r: char)
    ensures 'a' <= c <= 'z' ==> 'A' <= r <= 'Z' && (r as int) - ('A' as int) == (c as int) - ('a' as int)
    ensures !('a' <= c <= 'z') ==> r == c
  {
    if 'a' <= c <= 'z' then ((c as int) - 32) as char else c
  }

  function ToLower(c: char): (r: char)
    ensures 'A' <= c <= 'Z' ==> 'a' <= r <= 'z' && (r as int) - ('a' as int) == (c as int) - ('A' as int)
    ensures 'A' <= c <= 'Z' ==> ToUpper(r) == c
    ensures !('A' <= c <= 'Z') ==> r == c
  {
    if 'A' <= c <= 'Z' then ((c as int) + 32) as char else c
  }

  /** Lower-casing undoes upper-casing on lower-case letters. */
  lemma CaseRoundTrip(c: char)
    requires 'a' <= c <= 'z'
    ensures ToLower(ToUpper(c)) == c
  {
  }

  /** The piece a non-digit character stands for: white iff the character
      is its own upper case, and the type is its lower case. */
  function PieceOf(c: char): (p: Piece)
    ensures 'a' <= c <= 'z' ==> p == Piece(c, Black)
    ensures 'A' <= c <= 'Z' ==> p.color == White && 'a' <= p.kind <= 'z' && ToUpper(p.kind) == c
    ensures !('a' <= c <= 'z') && !('A' <= c <= 'Z') ==> p == Piece(c, White)
  {
    Piece(ToLower(c), if c == ToUpper(c) then White else Black)
  }

  /** `files[fileIndex] + rank`: past file h the array gives `undefined`,
      which concatenates as the text "undefined". */
  function SquareKey(file: nat, rank: char): string
  {
    if file < |Files| then [Files[file], rank] else "undefined" + [rank]
  }

  lemma FileLetter(f: nat)
    requires f < 8
    ensures Files[f] == (('a' as int) + f) as char
  {
    if f == 0 {} else if f == 1 {} else if f == 2 {} else if f == 3 {}
    else if f == 4 {} else if f == 5 {} else if f == 6 {} else {}
  }

  lemma RankDigit(k: nat)
    requires k < 8
    ensures Ranks[k] == (('8' as int) - k) as char
  {
    if k == 0 {} else if k == 1 {} else if k == 2 {} else if k == 3 {}
    else if k == 4 {} else if k == 5 {} else if k == 6 {} else {}
  }

  lemma FilesDistinct(i: nat, j: nat)
    requires i < 8 && j < 8 && Files[i] == Files[j]
    ensures i == j
  {
    FileLetter(i);
    FileLetter(j);
  }

  lemma RanksDistinct(i: nat, j: nat)
    requires i < 8 && j < 8 && Ranks[i] == Ranks[j]
    ensures i == j
  {
    RankDigit(i);
    RankDigit(j);
  }

  // ---------------------------------------------------------------------
  // The decoder, as a definition that writes entries in the order the
  // source's loops do (a later write to the same key wins).
  // ---------------------------------------------------------------------

  /** The board after the characters of `s` are read into `b` for `rank`. */
  function RowInto(b: Board, s: string, rank: char): Board
  {
    if s == [] then b
    else
      var p := s[..|s| - 1];
      var c := s[|s| - 1];
      var before := RowInto(b, p, rank);
      if IsDigit(c) then before else before[SquareKey(Cursor(p), rank) := PieceOf(c)]
  }

  /** The entries one row contributes on its own. */
  function RowMap(s: string, rank: char): Board
  {
    RowInto(map[], s, rank)
  }

  /** The board after the first `n` rows, row k read as rank `Ranks[k]`. */
  function PlaceRows(rows: seq<string>, n: nat): Board
    requires n <= |rows| && n <= |Ranks|
  {
    if n == 0 then map[] else RowInto(PlaceRows(rows, n - 1), rows[n - 1], Ranks[n - 1])
  }

  /** `parseFen` as a value: the eight ranks filled from the rows. */
  function DecodeFen(fen: string): Board
    requires |Rows(fen)| >= 8
  {
    PlaceRows(Rows(fen), 8)
  }

  /** `parseFen`: fills the board in place, one rank at a time, moving a file
      cursor. It reads `rows[rankIndex]` for all eight ranks, so a placement
      with fewer than eight rows is outside what it can be called on. */
  method ParseFen(fen: string) returns (board: Board)
    requires |Rows(fen)| >= 8
    ensures board == DecodeFen(fen)
  {
    var rows := Split(Split(fen, ' ')[0], '/');
    board := map[];
    for rankIndex := 0 to |Ranks|
      invariant board == PlaceRows(rows, rankIndex)
    {
      var rank := Ranks[rankIndex];
      var fileIndex := 0;
      var row := rows[rankIndex];
      ghost var before := board;
      for i := 0 to |row|
        invariant fileIndex == Cursor(row[..i])
        invariant board == RowInto(before, row[..i], rank)
      {
        var c := row[i];
        assert row[..i + 1][..i] == row[..i];
        if IsDigit(c) {
          fileIndex := fileIndex + DigitValue(c);
        } else {
          var square := SquareKey(fileIndex, rank);
          board := board[square := PieceOf(c)];
          fileIndex := fileIndex + 1;
        }
      }
      assert row[..|row|] == row;
    }
  }

  // ---------------------------------------------------------------------
  // A reference reading of a row: the eight files it spells out, a digit d
  // standing for d empty files and any other character for one piece.
  // ---------------------------------------------------------------------

  function Run(c: char): seq<Option<char>>
  {
    if IsDigit(c) then seq(DigitValue(c), _ => None) else [Some(c)]
  }

  function Expand(s: string): seq<Option<char>>
  {
    if s == [] then [] else Expand(s[..|s| - 1]) + Run(s[|s| - 1])
  }

  /** The piece letters of a row (its non-digit characters). */
  function Letters(s: string): nat
  {
    if s == [] then 0 else Letters(s[..|s| - 1]) + (if IsDigit(s[|s| - 1]) then 0 else 1)
  }

  function LettersIn(rows: seq<string>, n: nat): nat
    requires n <= |rows|
  {
    if n == 0 then 0 else LettersIn(rows, n - 1) + Letters(rows[n - 1])
  }

  /** A well-formed placement: eight rows, each summing to eight files. */
  predicate WellFormed(rows: seq<string>)
  {
    |rows| == 8 && forall k :: 0 <= k < 8 ==> Cursor(rows[k]) == 8
  }

  /** Every one of the first `n` rows stays within eight files. */
  predicate RowsFit(rows: seq<string>, n: nat)
    requires n <= |rows|
  {
    forall k :: 0 <= k < n ==> Cursor(rows[k]) <= 8
  }

  /** The file cursor is the number of files the row has spelled out. */
  lemma {:induction false} CursorIsWidth(s: string)
    ensures Cursor(s) == |Expand(s)|
  {
    if s != [] {
      CursorIsWidth(s[..|s| - 1]);
    }
  }

  /** Reading a row into a board only adds the row's own entries. */
  lemma {:induction false} RowIntoUnion(b: Board, s: string, rank: char)
    ensures RowInto(b, s, rank) == b + RowMap(s, rank)
  {
    if s == [] {
      assert b + map[] == b;
    } else {
      var p := s[..|s| - 1];
      RowIntoUnion(b, p, rank);
      if !IsDigit(s[|s| - 1]) {
        var key := SquareKey(Cursor(p), rank);
        var v := PieceOf(s[|s| - 1]);
        assert (b + RowMap(p, rank))[key := v] == b + RowMap(p, rank)[key := v];
      }
    }
  }

  /** Within eight files, a row puts a piece on file f exactly when its
      spelled-out files have a letter there, and that letter's piece. */
  lemma {:induction false} RowMapAt(s: string, rank: char, f: nat)
    requires Cursor(s) <= 8 && f < 8
    ensures SquareKey(f, rank) in RowMap(s, rank) <==> f < |Expand(s)| && Expand(s)[f].Some?
    ensures SquareKey(f, rank) in RowMap(s, rank) ==>
              RowMap(s, rank)[SquareKey(f, rank)] == PieceOf(Expand(s)[f].value)
  {
    if s != [] {
      var p := s[..|s| - 1];
      var c := s[|s| - 1];
      RowMapAt(p, rank, f);
      CursorIsWidth(p);
      CursorIsWidth(s);
      assert Expand(s) == Expand(p) + Run(c);
      if !IsDigit(c) {
        var i := Cursor(p);
        assert i < 8;
        if f != i {
          if SquareKey(f, rank) == SquareKey(i, rank) {
            assert Files[f] == SquareKey(f, rank)[0];
            FilesDistinct(f, i);
          }
        }
      }
    }
  }

  /** Within eight files, every key a row writes is a square name of its rank. */
  lemma {:induction false} RowMapKeys(s: string, rank: char)
    requires Cursor(s) <= 8
    ensures forall key :: key in RowMap(s, rank) ==> |key| == 2 && key[0] in Files && key[1] == rank
  {
    if s != [] {
      RowMapKeys(s[..|s| - 1], rank);
    }
  }

  /** Within eight files, a row writes one entry per piece letter. */
  lemma {:induction false} RowMapSize(s: string, rank: char)
    requires Cursor(s) <= 8
    ensures |RowMap(s, rank)| == Letters(s)
  {
    if s != [] {
      var p := s[..|s| - 1];
      RowMapSize(p, rank);
      if !IsDigit(s[|s| - 1]) {
        RowMapAt(p, rank, Cursor(p));
        CursorIsWidth(p);
      }
    }
  }

  /** A fitting row writes no square of another rank. */
  lemma OtherRankUntouched(s: string, k: nat, r: nat, f: nat)
    requires Cursor(s) <= 8 && k < 8 && r < 8 && f < 8 && k != r
    ensures SquareKey(f, Ranks[k]) !in RowMap(s, Ranks[r])
  {
    var key := SquareKey(f, Ranks[k]);
    RowMapKeys(s, Ranks[r]);
    if key in RowMap(s, Ranks[r]) {
      assert key[1] == Ranks[k];
      RanksDistinct(k, r);
    }
  }

  /** Square (f, k) of the board after `n` rows comes from row k alone. */
  lemma {:induction false} PlaceRowsAt(rows: seq<string>, n: nat, k: nat, f: nat)
    requires n <= |rows| && n <= 8 && RowsFit(rows, n) && k < 8 && f < 8
    ensures var key := SquareKey(f, Ranks[k]);
      && (key in PlaceRows(rows, n) <==> k < n && key in RowMap(rows[k], Ranks[k]))
      && (key in PlaceRows(rows, n) ==> PlaceRows(rows, n)[key] == RowMap(rows[k], Ranks[k])[key])
  {
    if n > 0 {
      var key := SquareKey(f, Ranks[k]);
      var before := PlaceRows(rows, n - 1);
      var row := RowMap(rows[n - 1], Ranks[n - 1]);
      PlaceRowsAt(rows, n - 1, k, f);
      RowIntoUnion(before, rows[n - 1], Ranks[n - 1]);
      assert PlaceRows(rows, n) == before + row;
      if k != n - 1 {
        assert Cursor(rows[n - 1]) <= 8;
        OtherRankUntouched(rows[n - 1], k, n - 1, f);
      }
    }
  }

  /** Every key on the board after `n` rows is a square name a1..h8. */
  lemma {:induction false} PlaceRowsKeys(rows: seq<string>, n: nat)
    requires n <= |rows| && n <= 8 && RowsFit(rows, n)
    ensures forall key :: key in PlaceRows(rows, n) ==>
              |key| == 2 && key[0] in Files && key[1] in Ranks[..n]
  {
    if n > 0 {
      var before := PlaceRows(rows, n - 1);
      var row := RowMap(rows[n - 1], Ranks[n - 1]);
      RowIntoUnion(before, rows[n - 1], Ranks[n - 1]);
      assert Ranks[..n] == Ranks[..n - 1] + [Ranks[n - 1]];
      forall key | key in PlaceRows(rows, n)
        ensures |key| == 2 && key[0] in Files && key[1] in Ranks[..n]
      {
        if key in row {
          assert Cursor(rows[n - 1]) <= 8;
          RowMapKeys(rows[n - 1], Ranks[n - 1]);
        } else {
          PlaceRowsKeys(rows, n - 1);
        }
      }
    }
  }

  /** A union of boards with no key in common has the sizes added. */
  lemma DisjointUnionSize(a: Board, b: Board)
    requires a.Keys !! b.Keys
    ensures |a + b| == |a| + |b|
  {
    assert (a + b).Keys == a.Keys + b.Keys;
    assert |a.Keys + b.Keys| == |a.Keys| + |b.Keys|;
  }

  /** The rank of row n - 1 is none of the earlier rows' ranks. */
  lemma RankNotEarlier(n: nat)
    requires 0 < n <= 8
    ensures Ranks[n - 1] !in Ranks[..n - 1]
  {
    if Ranks[n - 1] in Ranks[..n - 1] {
      var j :| 0 <= j < n - 1 && Ranks[..n - 1][j] == Ranks[n - 1];
      RanksDistinct(j, n - 1);
    }
  }

  /** Row n - 1 writes no key that an earlier row wrote. */
  lemma NewRowDisjoint(rows: seq<string>, n: nat)
    requires 0 < n <= |rows| && n <= 8 && RowsFit(rows, n)
    ensures PlaceRows(rows, n - 1).Keys !! RowMap(rows[n - 1], Ranks[n - 1]).Keys
  {
    var before := PlaceRows(rows, n - 1);
    var row := RowMap(rows[n - 1], Ranks[n - 1]);
    PlaceRowsKeys(rows, n - 1);
    assert Cursor(rows[n - 1]) <= 8;
    RowMapKeys(rows[n - 1], Ranks[n - 1]);
    RankNotEarlier(n);
    forall key | key in before ensures key !in row {
      assert key[1] in Ranks[..n - 1];
    }
  }

  /** The board after `n` rows has one entry per piece letter in them. */
  lemma {:induction false} PlaceRowsSize(rows: seq<string>, n: nat)
    requires n <= |rows| && n <= 8 && RowsFit(rows, n)
    ensures |PlaceRows(rows, n)| == LettersIn(rows, n)
  {
    if n > 0 {
      var before := PlaceRows(rows, n - 1);
      var row := RowMap(rows[n - 1], Ranks[n - 1]);
      PlaceRowsSize(rows, n - 1);
      RowIntoUnion(before, rows[n - 1], Ranks[n - 1]);
      assert Cursor(rows[n - 1]) <= 8;
      RowMapSize(rows[n - 1], Ranks[n - 1]);
      NewRowDisjoint(rows, n);
      DisjointUnionSize(before, row);
    }
  }

  /** On a well-formed placement, square (f, k) holds a piece exactly when
      row k spells a letter at file f, and that letter's piece: digit-covered
      squares are absent. */
  lemma DecodeSquare(fen: string, k: nat, f: nat)
    requires WellFormed(Rows(fen)) && k < 8 && f < 8
    ensures |Expand(Rows(fen)[k])| == 8
    ensures SquareKey(f, Ranks[k]) in DecodeFen(fen) <==> Expand(Rows(fen)[k])[f].Some?
    ensures SquareKey(f, Ranks[k]) in DecodeFen(fen) ==>
              DecodeFen(fen)[SquareKey(f, Ranks[k])] == PieceOf(Expand(Rows(fen)[k])[f].value)
  {
    var rows := Rows(fen);
    CursorIsWidth(rows[k]);
    PlaceRowsAt(rows, 8, k, f);
    RowMapAt(rows[k], Ranks[k], f);
  }

  /** On a well-formed placement every key is one of a1..h8, and there is
      exactly one entry per piece letter. */
  lemma DecodeKeysAndSize(fen: string)
    requires WellFormed(Rows(fen))
    ensures forall key :: key in DecodeFen(fen) ==> |key| == 2 && key[0] in Files && key[1] in Ranks
    ensures |DecodeFen(fen)| == LettersIn(Rows(fen), 8)
  {
    var rows := Rows(fen);
    PlaceRowsKeys(rows, 8);
    PlaceRowsSize(rows, 8);
    assert Ranks[..8] == Ranks;
  }

  // ---------------------------------------------------------------------
  // getSquareClasses
  // ---------------------------------------------------------------------

  datatype SquareClasses = SquareClasses(
    light: bool, selected: bool, validMove: bool, validCapture: bool,
    lastMoveFrom: bool, lastMoveTo: bool)

  /** `s[i]`, which is `undefined` past the end. */
  function CharAt(s: string, i: nat): Option<char>
  {
    if i < |s| then Some(s[i]) else None
  }

  /** `array.indexOf(x)`: the first position of x, or -1. */
  function IndexOf(s: string, c: Option<char>): (i: int)
    ensures -1 <= i < |s|
    ensures 0 <= i ==> c == Some(s[i])
  {
    if s == [] then -1
    else if c == Some(s[0]) then 0
    else var i := IndexOf(s[1..], c); if i < 0 then -1 else i + 1
  }

  /** Nothing before the position `indexOf` reports holds x, and it reports
      a position whenever x occurs. */
  lemma {:induction false} IndexOfFirst(s: string, c: Option<char>, j: nat)
    requires j < |s| && c == Some(s[j])
    ensures 0 <= IndexOf(s, c) <= j
  {
    if c != Some(s[0]) {
      IndexOfFirst(s[1..], c, j - 1);
    }
  }

  /** JavaScript's `%`, whose result takes the sign of the dividend. */
  function JsRem(a: int, b: int): (r: int)
    requires b > 0
    ensures a >= 0 ==> 0 <= r < b
    ensures a < 0 ==> -b < r <= 0
    ensures (a - r) % b == 0
  {
    if a >= 0 then
      var q := a / b;
      assert a - a % b == q * b;
      MultipleMod(q, b);
      a % b
    else
      var q := (-a) / b;
      assert a + (-a) % b == (-q) * b;
      MultipleMod(-q, b);
      -((-a) % b)
  }

  /** A multiple of `b` leaves no remainder. */
  lemma MultipleMod(k: int, b: int)
    requires b > 0
    ensures (k * b) % b == 0
  {
    var n := k * b;
    var q := n / b;
    var r := n % b;
    assert n == b * q + r;
    var d := k - q;
    assert b * d == r;
    if d >= 1 {
      ProductAtLeast(b, d);
    } else if d <= -1 {
      ProductAtLeast(b, -d);
    }
  }

  /** A positive number times a positive integer is at least the number. */
  lemma {:induction false} ProductAtLeast(b: int, d: int)
    requires b > 0 && d >= 1
    ensures b * d >= b
    decreases d
  {
    if d > 1 {
      ProductAtLeast(b, d - 1);
      assert b * d == b * (d - 1) + b;
    }
  }

  /** The 'light' class: `(fileIndex + rankIndex) % 2 === 1`, with -1 for a
      character that is not a file or rank. */
  function IsLight(square: Square): bool
  {
    var fileIndex := IndexOf(Files, CharAt(square, 0));
    var rankIndex := IndexOf(Ranks, CharAt(square, 1));
    JsRem(fileIndex + rankIndex, 2) == 1
  }

  function SquareClassesOf(square: Square, selectedSquare: Option<Square>, validMoves: seq<Square>,
                           lastMove: Option<FromTo>, board: Board): (r: SquareClasses)
    ensures r.light == IsLight(square)
    ensures !(r.validMove && r.validCapture)
    ensures r.validMove || r.validCapture <==> square in validMoves
    ensures r.validCapture <==> square in validMoves && square in board
    ensures r.selected <==> selectedSquare == Some(square)
    ensures r.lastMoveFrom <==> lastMove.Some? && lastMove.value.from == square
    ensures r.lastMoveTo <==> lastMove.Some? && lastMove.value.to == square
  {
    var isValidMove := square in validMoves;
    var isValidCapture := isValidMove && square in board;
    SquareClasses(
      IsLight(square),
      selectedSquare == Some(square),
      isValidMove && !isValidCapture,
      isValidCapture,
      lastMove.Some? && square == lastMove.value.from,
      lastMove.Some? && square == lastMove.value.to)
  }

  /** On the board's own squares, 'light' is the parity of the file index
      plus the rank's position in ['8', ..., '1']; so a1 and h8 are 'light'. */
  lemma SquareShade(f: nat, k: nat)
    requires f < 8 && k < 8
    ensures IsLight([Files[f], Ranks[k]]) <==> (f + k) % 2 == 1
  {
    var square := [Files[f], Ranks[k]];
    var i := IndexOf(Files, CharAt(square, 0));
    var j := IndexOf(Ranks, CharAt(square, 1));
    IndexOfFirst(Files, CharAt(square, 0), f);
    IndexOfFirst(Ranks, CharAt(square, 1), k);
    if i != f {
      FilesDistinct(i, f);
    }
    if j != k {
      RanksDistinct(j, k);
    }
  }

  /** The shading alternates: squares next to each other along a rank or
      along a file never share a shade. */
  lemma Checkered(f: nat, k: nat, g: nat, j: nat)
    requires f < 8 && k < 8 && g < 8 && j < 8
    requires (g == f + 1 && j == k) || (g == f && j == k + 1)
    ensures IsLight([Files[f], Ranks[k]]) != IsLight([Files[g], Ranks[j]])
  {
    assert g + j == f + k + 1;
    assert (g + j) % 2 != (f + k) % 2;
    SquareShade(f, k);
    SquareShade(g, j);
  }

  // ---------------------------------------------------------------------
  // getPieceSymbol
  // ---------------------------------------------------------------------

  const Symbols: map<string, string> := map[
    "wp" := "♙", "bp" := "♟",
    "wn" := "♘", "bn" := "♞",
    "wb" := "♗", "bb" := "♝",
    "wr" := "♖", "br" := "♜",
    "wq" := "♕", "bq" := "♛",
    "wk" := "♔", "bk" := "♚"]

  /** `symbols[color + type] || ''`. */
  function PieceSymbol(kind: string, color: string): (glyph: string)
    ensures glyph != "" <==> color + kind in Symbols
    ensures color + kind in Symbols ==> glyph == Symbols[color + kind]
  {
    if color + kind in Symbols then Symbols[color + kind] else ""
  }

  /** Different keys show different glyphs. */
  lemma GlyphsDistinct(a: string, b: string)
    requires a in Symbols && b in Symbols && Symbols[a] == Symbols[b]
    ensures a == b
  {
  }

  /** A decoded piece has a glyph exactly when its type is one of the six
      piece letters, whichever its colour. */
  lemma GlyphOfPiece(p: Piece)
    ensures PieceSymbol([p.kind], ColorCode(p.color)) != "" <==> p.kind in "pnbrqk"
  {
    var key := ColorCode(p.color) + [p.kind];
    assert |key| == 2 && key[1] == p.kind;
    assert key[0] == 'w' || key[0] == 'b';
    if p.kind in "pnbrqk" {
      assert p.kind == 'p' || p.kind == 'n' || p.kind == 'b' || p.kind == 'r' || p.kind == 'q' || p.kind == 'k';
      assert key == "wp" || key == "bp" || key == "wn" || key == "bn" || key == "wb" || key == "bb"
          || key == "wr" || key == "br" || key == "wq" || key == "bq" || key == "wk" || key == "bk";
    } else if key in Symbols {
      assert false;
    }
  }
}
