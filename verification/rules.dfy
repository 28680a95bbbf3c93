/** Win detection and move legality. */
module Rules {
  import opened BoardModel

  /** The eight winning lines: three rows, three columns, two diagonals. */
  const WinningLines: seq<(Index, Index, Index)> :=
    [(0, 1, 2), (3, 4, 5), (6, 7, 8),
     (0, 3, 6), (1, 4, 7), (2, 5, 8),
     (0, 4, 8), (2, 4, 6)]

  predicate Completes(b: Board, symbol: char, line: (Index, Index, Index)) {
    IsOccupiedBy(b, symbol, line.0) && IsOccupiedBy(b, symbol, line.1) && IsOccupiedBy(b, symbol, line.2)
  }

  /** Reference definition: some winning line is entirely `symbol`. */
  predicate HasWinningLine(b: Board, symbol: char) {
    exists k :: 0 <= k < |WinningLines| && Completes(b, symbol, WinningLines[k])
  }

  lemma WinningLinesSpelledOut(b: Board, symbol: char)
    ensures HasWinningLine(b, symbol) <==>
      || Completes(b, symbol, WinningLines[0]) || Completes(b, symbol, WinningLines[1])
      || Completes(b, symbol, WinningLines[2]) || Completes(b, symbol, WinningLines[3])
      || Completes(b, symbol, WinningLines[4]) || Completes(b, symbol, WinningLines[5])
      || Completes(b, symbol, WinningLines[6]) || Completes(b, symbol, WinningLines[7])
  {
  }

  /** The row loop of `check_winner`: rows starting at `i`, `i + 3`, ... up to 6. */
  function RowsFrom(b: Board, symbol: char, i: nat): bool
    requires i % 3 == 0
    decreases BoardLength - i
  {
    if i <= 6 then
      (IsOccupiedBy(b, symbol, i) && IsOccupiedBy(b, symbol, i + 1) && IsOccupiedBy(b, symbol, i + 2))
      || RowsFrom(b, symbol, i + 3)
    else false
  }

  /** The column loop of `check_winner`: columns `i`, `i + 1`, ... up to 2. */
  function ColumnsFrom(b: Board, symbol: char, i: nat): bool
    decreases 3 - i
  {
    if i < 3 then
      (IsOccupiedBy(b, symbol, i) && IsOccupiedBy(b, symbol, i + 3) && IsOccupiedBy(b, symbol, i + 6))
      || ColumnsFrom(b, symbol, i + 1)
    else false
  }

  /** True iff `symbol` holds all three cells of one of the eight lines. */
  function CheckWinner(b: Board, symbol: char): (r: bool)
    ensures r <==> HasWinningLine(b, symbol)
  {
    WinningLinesSpelledOut(b, symbol);
    assert RowsFrom(b, symbol, 0) <==>
      Completes(b, symbol, WinningLines[0]) || Completes(b, symbol, WinningLines[1]) || Completes(b, symbol, WinningLines[2]);
    assert ColumnsFrom(b, symbol, 0) <==>
      Completes(b, symbol, WinningLines[3]) || Completes(b, symbol, WinningLines[4]) || Completes(b, symbol, WinningLines[5]);
    RowsFrom(b, symbol, 0)
    || ColumnsFrom(b, symbol, 0)
    || (IsOccupiedBy(b, symbol, 0) && IsOccupiedBy(b, symbol, 4) && IsOccupiedBy(b, symbol, 8))
    || (IsOccupiedBy(b, symbol, 2) && IsOccupiedBy(b, symbol, 4) && IsOccupiedBy(b, symbol, 6))
  }

  /** A move is legal iff it names a cell of the board and that cell is empty. */
  predicate IsValidMove(move: int, b: Board) {
    0 <= move < BoardLength && !IsOccupied(b, move)
  }

  /** The board is full exactly when no move is legal on it. */
  lemma OverIffNoValidMove(b: Board)
    ensures IsOver(b) <==> forall m: int :: !IsValidMove(m, b)
  {
    OverIffNoEmptyCell(b);
    if !IsOver(b) {
      var i: Index :| !IsOccupied(b, i);
      assert IsValidMove(i, b);
    }
  }

  /** Playing a legal move with a real symbol takes up one empty cell and
      puts the symbol there. */
  lemma ValidMoveFillsOneCell(b: Board, symbol: char, m: int)
    requires symbol != EmptySpace && IsValidMove(m, b)
    ensures IsOccupiedBy(SetOccupiedBy(b, symbol, m), symbol, m)
    ensures EmptyCount(SetOccupiedBy(b, symbol, m)) == EmptyCount(b) - 1
  {
    FillDecrementsEmptyCount(b, symbol, m);
  }

  /** Index 9 and negative indices are never legal, whatever the board. */
  lemma OutOfRangeNeverValid(b: Board, m: int)
    requires m < 0 || m >= BoardLength
    ensures !IsValidMove(m, b)
  {
  }

  /** Completing the top row from "xx-------" is a win for 'x'. */
  lemma TopRowScenario()
    ensures CheckWinner(SetOccupiedBy("xx-------", 'x', 2), 'x')
    ensures !CheckWinner("xx-------", 'x')
  {
  }

  /** A full board with no three in a row: over, and no winner. */
  lemma FullBoardWithoutLine()
    ensures IsOver("xoxxoooxx")
    ensures !CheckWinner("xoxxoooxx", 'x') && !CheckWinner("xoxxoooxx", 'o')
  {
  }
}
