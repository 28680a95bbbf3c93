/** The 3x3 board: nine cells stored row by row (index = row * 3 + column),
    each holding either the empty marker '-' or a player's symbol. */
module BoardModel {

  const BoardLength: int := 9
  const EmptySpace: char := '-'

  type Board = b: seq<char> | |b| == BoardLength witness "---------"
  type Index = i: int | 0 <= i < BoardLength

  /** The board `new_game` leaves behind: every cell empty. */
  const EmptyBoard: Board := "---------"

  /** Whether the cell holds a player's mark rather than the empty marker. */
  predicate IsOccupied(b: Board, index: Index) {
    b[index] != EmptySpace
  }

  /** Whether the cell holds exactly `symbol`; a cell holding a player's
      symbol is occupied. */
  predicate IsOccupiedBy(b: Board, symbol: char, index: Index)
    ensures symbol != EmptySpace && IsOccupiedBy(b, symbol, index) ==> IsOccupied(b, index)
  {
    b[index] == symbol
  }

  /** A cell is occupied exactly when it holds some symbol other than the
      empty marker. */
  lemma OccupiedIffHoldsSymbol(b: Board, index: Index)
    ensures IsOccupied(b, index) <==> exists s: char :: s != EmptySpace && IsOccupiedBy(b, s, index)
  {
    if IsOccupied(b, index) {
      assert IsOccupiedBy(b, b[index], index);
    }
  }

  /** Empties one cell and leaves the other eight alone. */
  function ClearSpace(b: Board, index: Index): (r: Board)
    ensures !IsOccupied(r, index)
    ensures forall j: Index :: j != index ==> r[j] == b[j]
  {
    b[index := EmptySpace]
  }

  /** Places `symbol` at `index` only if that cell is empty: an occupied
      cell is never overwritten, and no other cell changes. */
  function SetOccupiedBy(b: Board, symbol: char, index: Index): (r: Board)
    ensures IsOccupied(b, index) ==> r == b
    ensures !IsOccupied(b, index) ==> IsOccupiedBy(r, symbol, index)
    ensures forall j: Index :: j != index ==> r[j] == b[j]
  {
    if !IsOccupied(b, index) then b[index := symbol] else b
  }

  /** The cell-by-cell copy into a destination board whose previous
      contents are `dest`. */
  method NewCopy(b: Board, dest: Board) returns (nb: Board)
    ensures nb == b
  {
    nb := dest;
    for i := 0 to BoardLength
      invariant forall j :: 0 <= j < i ==> nb[j] == b[j]
    {
      nb := nb[i := b[i]];
    }
  }

  /** The scan of `is_over` from cell `from` onward: false at the first
      empty cell, true when the end of the board is reached. */
  function FullFrom(b: Board, from: nat): (r: bool)
    requires from <= BoardLength
    ensures r <==> forall j :: from <= j < BoardLength ==> IsOccupied(b, j)
    decreases BoardLength - from
  {
    from == BoardLength || (IsOccupied(b, from) && FullFrom(b, from + 1))
  }

  /** Whether the board is full; says nothing about a winner. */
  function IsOver(b: Board): bool {
    FullFrom(b, 0)
  }

  /** The number of empty cells at or after `from`. */
  function EmptyCountFrom(b: Board, from: nat): (n: nat)
    requires from <= BoardLength
    ensures n <= BoardLength - from
    ensures n == 0 <==> FullFrom(b, from)
    decreases BoardLength - from
  {
    if from == BoardLength then 0
    else (if IsOccupied(b, from) then 0 else 1) + EmptyCountFrom(b, from + 1)
  }

  function EmptyCount(b: Board): nat {
    EmptyCountFrom(b, 0)
  }

  /** A full board is exactly one with no empty cell left. */
  lemma OverIffNoEmptyCell(b: Board)
    ensures IsOver(b) <==> EmptyCount(b) == 0
    ensures IsOver(b) <==> forall i: Index :: IsOccupied(b, i)
  {
  }

  lemma {:induction false} FillFromDecrements(b: Board, symbol: char, index: Index, from: nat)
    requires symbol != EmptySpace && !IsOccupied(b, index)
    requires from <= BoardLength
    ensures EmptyCountFrom(SetOccupiedBy(b, symbol, index), from)
         == EmptyCountFrom(b, from) - (if from <= index then 1 else 0)
    decreases BoardLength - from
  {
    if from < BoardLength {
      FillFromDecrements(b, symbol, index, from + 1);
    }
  }

  /** Filling an empty cell with a real symbol removes exactly one empty cell. */
  lemma FillDecrementsEmptyCount(b: Board, symbol: char, index: Index)
    requires symbol != EmptySpace && !IsOccupied(b, index)
    ensures EmptyCount(SetOccupiedBy(b, symbol, index)) == EmptyCount(b) - 1
  {
    FillFromDecrements(b, symbol, index, 0);
  }

  /** Clearing a cell and then occupying it puts exactly that symbol there
      and restores every other cell. */
  lemma ClearThenSet(b: Board, symbol: char, index: Index)
    ensures var r := SetOccupiedBy(ClearSpace(b, index), symbol, index);
      IsOccupiedBy(r, symbol, index) && forall j: Index :: j != index ==> r[j] == b[j]
  {
  }
}
