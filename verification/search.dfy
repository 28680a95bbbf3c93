/** The computer player's exhaustive minimax search and its move choice. */
module Search {
  import opened Wrappers
  import opened BoardModel
  import opened Rules
  import opened Players

  /** The hypothetical board after `p` plays `index` on a copy of `b`.
      Boards are values, so the copy `new_copy` makes is `b` itself
      (`NewCopy` ensures `nb == b`), and placing on it leaves `b` as it was. */
  function Placed(players: Roster, b: Board, p: Seat, index: Index): Board {
    SetOccupiedBy(b, players.Symbol(p), index)
  }

  /** Placing on an empty cell uses it up; placing on an occupied one
      changes nothing. */
  lemma PlacedEmptyCount(players: Roster, b: Board, p: Seat, index: Index)
    requires players.Valid()
    ensures EmptyCount(Placed(players, b, p, index)) == EmptyCount(b) - (if IsOccupied(b, index) then 0 else 1)
  {
    if !IsOccupied(b, index) {
      FillDecrementsEmptyCount(b, players.Symbol(p), index);
    }
  }

  /** The score of `p` playing `index` on `b`, seen by seat `pMax`: a win
      for the mover scores 10 - depth for the maximiser and depth - 10 for
      the other seat, a full board scores 0, and otherwise the scores of
      every reply of the opponent are aggregated by `BestReply`, taking the
      minimum when the mover is the maximiser and the maximum otherwise. */
  function Minimax(players: Roster, b: Board, pMax: Seat, p: Seat, index: Index, depth: int): (r: int)
    requires players.Valid()
    ensures !IsOccupied(b, index) && depth + EmptyCount(b) <= BoardLength ==> depth - 10 <= r <= 10 - depth
    ensures !IsOccupied(b, index) && 0 <= depth && depth + EmptyCount(b) <= BoardLength ==> -10 <= r <= 10
    decreases EmptyCount(b), if IsOccupied(b, index) then 1 else 0, 0
  {
    var bc := Placed(players, b, p, index);
    if CheckWinner(bc, players.Symbol(p)) then
      (if p == pMax then 10 - depth else depth - 10)
    else if IsOver(bc) then
      0
    else
      OverIffNoEmptyCell(bc);
      PlacedEmptyCount(players, b, p, index);
      var best := BestReply(players, bc, pMax, Opponent(p), depth + 1, p == pMax, 0, None);
      best.value
  }

  /** The loop of `minimax` over the cells `i`, `i + 1`, ... of `bc`: each
      empty cell is scored as a reply of `q`, and a score replaces the
      running `best` when there is none yet, or when it is smaller
      (`minimize`) or larger (otherwise). */
  function BestReply(players: Roster, bc: Board, pMax: Seat, q: Seat, depth: int, minimize: bool,
                     i: nat, best: Option<int>): (r: Option<int>)
    requires players.Valid()
    requires i <= BoardLength
    ensures best.Some? || (exists j :: i <= j < BoardLength && !IsOccupied(bc, j)) ==> r.Some?
    ensures r.Some? ==> r == best || exists j :: i <= j < BoardLength && !IsOccupied(bc, j)
                                                 && r.value == Minimax(players, bc, pMax, q, j, depth)
    ensures r.Some? && best.Some? ==> if minimize then r.value <= best.value else r.value >= best.value
    ensures r.Some? ==> forall j :: i <= j < BoardLength && !IsOccupied(bc, j) ==>
      if minimize then r.value <= Minimax(players, bc, pMax, q, j, depth)
      else r.value >= Minimax(players, bc, pMax, q, j, depth)
    decreases EmptyCount(bc), 0, BoardLength - i
  {
    if i == BoardLength then best
    else if !IsOccupied(bc, i) then
      var score := Minimax(players, bc, pMax, q, i, depth);
      var best' :=
        if best.None? || (!minimize && best.value < score) || (minimize && best.value > score)
        then Some(score) else best;
      BestReply(players, bc, pMax, q, depth, minimize, i + 1, best')
    else
      BestReply(players, bc, pMax, q, depth, minimize, i + 1, best)
  }

  /** A move that wins for the mover scores 10 - depth for the maximiser
      and depth - 10 otherwise; a move that fills the board without a win
      scores 0. */
  lemma MinimaxTerminal(players: Roster, b: Board, pMax: Seat, p: Seat, index: Index, depth: int)
    requires players.Valid()
    ensures var bc := Placed(players, b, p, index);
      && (CheckWinner(bc, players.Symbol(p)) && p == pMax ==> Minimax(players, b, pMax, p, index, depth) == 10 - depth)
      && (CheckWinner(bc, players.Symbol(p)) && p != pMax ==> Minimax(players, b, pMax, p, index, depth) == depth - 10)
      && (!CheckWinner(bc, players.Symbol(p)) && IsOver(bc) ==> Minimax(players, b, pMax, p, index, depth) == 0)
  {
  }

  /** Away from a terminal board, the score is the score of one of the
      opponent's replies (so the running best is always set) and it is the
      smallest of them when the mover is the maximiser, the largest
      otherwise. Each reply is scored one ply deeper. */
  lemma MinimaxAggregate(players: Roster, b: Board, pMax: Seat, p: Seat, index: Index, depth: int)
    requires players.Valid()
    requires !CheckWinner(Placed(players, b, p, index), players.Symbol(p))
    requires !IsOver(Placed(players, b, p, index))
    ensures var bc := Placed(players, b, p, index);
      var r := Minimax(players, b, pMax, p, index, depth);
      && (exists j: Index :: !IsOccupied(bc, j) && r == Minimax(players, bc, pMax, Opponent(p), j, depth + 1))
      && (forall j: Index :: !IsOccupied(bc, j) ==>
            if p == pMax then r <= Minimax(players, bc, pMax, Opponent(p), j, depth + 1)
            else r >= Minimax(players, bc, pMax, Opponent(p), j, depth + 1))
  {
  }

  /** Among wins, the shallower scores strictly better for the maximiser
      and strictly worse for the other seat. */
  lemma ShallowerWinsCountMore(players: Roster, b: Board, pMax: Seat, p: Seat, index: Index, d1: int, d2: int)
    requires players.Valid()
    requires CheckWinner(Placed(players, b, p, index), players.Symbol(p))
    requires d1 < d2
    ensures p == pMax ==> Minimax(players, b, pMax, p, index, d1) > Minimax(players, b, pMax, p, index, d2)
    ensures p != pMax ==> Minimax(players, b, pMax, p, index, d1) < Minimax(players, b, pMax, p, index, d2)
  {
  }

  /** At the top of the search (depth 0, mover = maximiser), a score of 10
      is reached exactly by a move that wins on the spot: every deeper
      outcome scores at most 9. */
  lemma TopScoreIffImmediateWin(players: Roster, b: Board, p: Seat, index: Index)
    requires players.Valid()
    requires !IsOccupied(b, index)
    ensures Minimax(players, b, p, p, index, 0) == 10 <==> CheckWinner(Placed(players, b, p, index), players.Symbol(p))
  {
  }

  /** Completing the top row of "xx-------" at depth 0 scores 10. */
  lemma TopRowScoresTen()
    ensures Minimax(Roster(Player('x', true), Player('o', true)), "xx-------", PlayerOne, PlayerOne, 2, 0) == 10
  {
  }

  /** The cell visited at step `k` of the scan that starts at `start` and
      wraps from the last cell back to cell 0. */
  function ScanCell(start: Index, k: int): Index
    requires 0 <= k < BoardLength
  {
    if start + k < BoardLength then start + k else start + k - BoardLength
  }

  /** The step at which the scan from `start` reaches `cell`: every cell is
      reached, at exactly one step. */
  function ScanStep(start: Index, cell: Index): (k: int)
    ensures 0 <= k < BoardLength && ScanCell(start, k) == cell
    ensures forall k' :: 0 <= k' < BoardLength && ScanCell(start, k') == cell ==> k' == k
  {
    if cell >= start then cell - start else cell - start + BoardLength
  }

  /** The scan loop of the computer's move: every empty cell is scored,
      visiting cells from `start` with wrap-around, and a cell is kept when
      its score is strictly greater than the best so far, which starts at
      `floor`. A full board leaves the move unset. */
  method ScanForBest(b: Board, start: Index, score: Index -> int, floor: int) returns (move: Option<Index>)
    requires forall c: Index :: !IsOccupied(b, c) ==> score(c) > floor
    ensures move.None? <==> IsOver(b)
    ensures move.Some? ==> !IsOccupied(b, move.value)
    ensures move.Some? ==> forall c: Index :: !IsOccupied(b, c) ==> score(c) <= score(move.value)
    ensures move.Some? ==> forall k :: 0 <= k < ScanStep(start, move.value) && !IsOccupied(b, ScanCell(start, k)) ==>
      score(ScanCell(start, k)) < score(move.value)
  {
    var bestScore := floor;
    move := None;
    var i: int := start;
    var j := 0;
    while j < BoardLength
      invariant 0 <= j <= BoardLength
      invariant i == if start + j <= BoardLength then start + j else start + j - BoardLength
      invariant move.None? <==> forall k :: 0 <= k < j ==> IsOccupied(b, ScanCell(start, k))
      invariant move.None? ==> bestScore == floor
      invariant move.Some? ==> && !IsOccupied(b, move.value)
                               && bestScore == score(move.value)
                               && ScanStep(start, move.value) < j
      invariant forall k :: 0 <= k < j && !IsOccupied(b, ScanCell(start, k)) ==> score(ScanCell(start, k)) <= bestScore
      invariant move.Some? ==> forall k :: 0 <= k < ScanStep(start, move.value) && !IsOccupied(b, ScanCell(start, k)) ==>
        score(ScanCell(start, k)) < bestScore
    {
      if i == BoardLength {
        i := 0;
      }
      assert i == ScanCell(start, j);
      if !IsOccupied(b, i) {
        var s := score(i);
        if s > bestScore {
          bestScore := s;
          move := Some(i);
        }
      }
      j := j + 1;
      i := i + 1;
    }
    OverIffNoEmptyCell(b);
    if move.None? {
      forall c: Index
        ensures IsOccupied(b, c)
      {
        assert IsOccupied(b, ScanCell(start, ScanStep(start, c)));
      }
    } else {
      forall c: Index | !IsOccupied(b, c)
        ensures score(c) <= bestScore
      {
        assert c == ScanCell(start, ScanStep(start, c));
      }
    }
  }

  /** The computer's move: each empty cell is scored by `Minimax` with the
      player as both maximiser and mover at depth 0, and the scan keeps the
      first cell of strictly greatest score, starting from -1000, which
      every score exceeds. The result is an empty cell with the greatest
      score, the first such cell in scan order, and a winning move whenever
      one exists. */
  method AiMove(players: Roster, b: Board, p: Seat, start: Index) returns (move: Option<Index>)
    requires players.Valid()
    ensures move.None? <==> IsOver(b)
    ensures move.Some? ==> !IsOccupied(b, move.value)
    ensures move.Some? ==> forall c: Index :: !IsOccupied(b, c) ==>
      Minimax(players, b, p, p, c, 0) <= Minimax(players, b, p, p, move.value, 0)
    ensures move.Some? ==> forall k :: 0 <= k < ScanStep(start, move.value) && !IsOccupied(b, ScanCell(start, k)) ==>
      Minimax(players, b, p, p, ScanCell(start, k), 0) < Minimax(players, b, p, p, move.value, 0)
    ensures move.Some? && (exists c: Index :: !IsOccupied(b, c) && CheckWinner(Placed(players, b, p, c), players.Symbol(p))) ==>
      CheckWinner(Placed(players, b, p, move.value), players.Symbol(p))
  {
    var score := (c: Index) => Minimax(players, b, p, p, c, 0);
    move := ScanForBest(b, start, score, -1000);
    if move.Some? && exists c: Index :: !IsOccupied(b, c) && CheckWinner(Placed(players, b, p, c), players.Symbol(p)) {
      var c: Index :| !IsOccupied(b, c) && CheckWinner(Placed(players, b, p, c), players.Symbol(p));
      TopScoreIffImmediateWin(players, b, p, c);
      TopScoreIffImmediateWin(players, b, p, move.value);
    }
  }
}
