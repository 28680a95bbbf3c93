/** The match: setting up a game and playing turns until a win or a tie. */
module TurnDriver {
  import opened Wrappers
  import opened BoardModel
  import opened Rules
  import opened Players
  import opened Search

  /** The players, the board and whose turn it is. */
  datatype Game = Game(players: Roster, board: Board, current: Seat)

  /** What a single turn ends in. */
  datatype Status = Won | Tied | Continue

  datatype TurnResult = TurnResult(game: Game, status: Status)

  /** How a match ends. `InputExhausted` stands for a human player whose
      input stream runs out before a legal move is entered. */
  datatype Ending = Winner(seat: Seat) | Tie | InputExhausted

  /** Sets up a game: the two players with their symbols and AI flags,
      every cell of the board (whatever it held before) cleared, and player
      one to move. */
  method NewGame(prior: Board, one: Player, two: Player) returns (g: Game)
    ensures g.players == Roster(one, two)
    ensures g.board == EmptyBoard
    ensures !IsOver(g.board)
    ensures g.current == PlayerOne
  {
    var b := prior;
    for i := 0 to BoardLength
      invariant forall j :: 0 <= j < i ==> b[j] == EmptySpace
    {
      b := ClearSpace(b, i);
    }
    g := Game(Roster(one, two), b, PlayerOne);
    assert forall c: Index :: !IsOccupied(g.board, c);
    NewBoardNotOver(g);
  }

  /** One turn after the move has been chosen: the current player's symbol
      is placed, a win for that player is checked first, then a full board,
      and only when neither holds does the turn pass to the other player. */
  function Turn(g: Game, move: Index): (t: TurnResult)
    ensures t.game.players == g.players
    ensures t.game.board == SetOccupiedBy(g.board, g.players.Symbol(g.current), move)
    ensures t.status == Won <==> CheckWinner(t.game.board, g.players.Symbol(g.current))
    ensures t.status == Tied <==> !CheckWinner(t.game.board, g.players.Symbol(g.current)) && IsOver(t.game.board)
    ensures t.status == Continue ==> t.game.current == Opponent(g.current)
    ensures t.status != Continue ==> t.game.current == g.current
  {
    var board := SetOccupiedBy(g.board, g.players.Symbol(g.current), move);
    if CheckWinner(board, g.players.Symbol(g.current)) then
      TurnResult(g.(board := board), Won)
    else if IsOver(board) then
      TurnResult(g.(board := board), Tied)
    else
      var next := if g.current == PlayerTwo then PlayerOne else PlayerTwo;
      TurnResult(g.(board := board, current := next), Continue)
  }

  /** A move that both fills the board and completes a line is a win, not
      a tie. */
  lemma WinBeatsFullBoard(g: Game, move: Index)
    requires IsOver(SetOccupiedBy(g.board, g.players.Symbol(g.current), move))
    requires CheckWinner(SetOccupiedBy(g.board, g.players.Symbol(g.current), move), g.players.Symbol(g.current))
    ensures Turn(g, move).status == Won
  {
  }

  /** Two turns that both continue hand the move back to the player who
      started, after passing it to the other one. */
  lemma TwoTurnsReturnToPlayer(g: Game, m1: Index, m2: Index)
    requires Turn(g, m1).status == Continue
    requires Turn(Turn(g, m1).game, m2).status == Continue
    ensures Turn(g, m1).game.current != g.current
    ensures Turn(Turn(g, m1).game, m2).game.current == g.current
  {
  }

  /** The seat holding the turn after it has been passed on `n` times. */
  function PassedOn(s: Seat, n: nat): Seat {
    if n == 0 then s else Opponent(PassedOn(s, n - 1))
  }

  /** Passing the turn on an even number of times returns it to the same
      player, an odd number of times gives it to the other one. */
  lemma {:induction false} PassedOnParity(s: Seat, n: nat)
    ensures PassedOn(s, n) == if n % 2 == 0 then s else Opponent(s)
  {
    if n > 0 {
      PassedOnParity(s, n - 1);
    }
  }

  /** The human branch of the move choice: entries are read one by one
      until one is a legal move. When the entries run out first, no move is
      returned. */
  method HumanMove(b: Board, inputs: seq<int>) returns (move: Option<Index>, consumed: nat)
    ensures consumed <= |inputs|
    ensures move.Some? ==> 0 < consumed && inputs[consumed - 1] == move.value && IsValidMove(move.value, b)
    ensures move.None? ==> consumed == |inputs|
    ensures forall k :: 0 <= k < consumed && (move.None? || k < consumed - 1) ==> !IsValidMove(inputs[k], b)
  {
    consumed := 0;
    move := None;
    while consumed < |inputs|
      invariant consumed <= |inputs|
      invariant forall k :: 0 <= k < consumed ==> !IsValidMove(inputs[k], b)
    {
      var m := inputs[consumed];
      consumed := consumed + 1;
      if IsValidMove(m, b) {
        move := Some(m);
        return;
      }
    }
  }

  /** `move` is the move `get_move` settles on for the player to move in
      `game`, where `roll` is the value `rand()` returns and the entries
      `entries[from..to]` are the ones read. The computer reads nothing and
      plays the empty cell of greatest minimax score that comes first in the
      scan from `roll % 9`; a human player's move is the last entry read,
      and every entry read before it is illegal. */
  predicate IsChosenMove(game: Game, roll: nat, entries: seq<int>, from: nat, to: nat, move: Index) {
    && game.players.Valid()
    && IsValidMove(move, game.board)
    && if game.players.At(game.current).isAI then
         && to == from
         && (forall c: Index :: !IsOccupied(game.board, c) ==>
               Minimax(game.players, game.board, game.current, game.current, c, 0)
                 <= Minimax(game.players, game.board, game.current, game.current, move, 0))
         && (forall k :: 0 <= k < ScanStep(roll % BoardLength, move) &&
                         !IsOccupied(game.board, ScanCell(roll % BoardLength, k)) ==>
               Minimax(game.players, game.board, game.current, game.current, ScanCell(roll % BoardLength, k), 0)
                 < Minimax(game.players, game.board, game.current, game.current, move, 0))
       else
         && from < to <= |entries|
         && entries[to - 1] == move
         && forall j :: from <= j < to - 1 ==> !IsValidMove(entries[j], game.board)
  }

  /** The characterisation leaves no choice: the same game, roll and
      entries determine the move and how many entries it reads. */
  lemma ChosenMoveIsUnique(game: Game, roll: nat, entries: seq<int>, from: nat, to1: nat, to2: nat, m1: Index, m2: Index)
    requires IsChosenMove(game, roll, entries, from, to1, m1)
    requires IsChosenMove(game, roll, entries, from, to2, m2)
    ensures m1 == m2 && to1 == to2
  {
    if game.players.At(game.current).isAI {
      var start := roll % BoardLength;
      var score := (c: Index) => Minimax(game.players, game.board, game.current, game.current, c, 0);
      EarliestBestInScan(game.board, start, score, m1);
      EarliestBestInScan(game.board, start, score, m2);
      assert m1 == ScanCell(start, ScanStep(start, m1));
    } else {
      EarliestLegalEntry(game.board, entries, from, to1);
      EarliestLegalEntry(game.board, entries, from, to2);
    }
  }

  /** A cell that beats every empty cell scanned before it comes no later
      in the scan than any empty cell scoring at least as much. */
  lemma EarliestBestInScan(b: Board, start: Index, score: Index -> int, m: Index)
    requires !IsOccupied(b, m)
    requires forall k :: 0 <= k < ScanStep(start, m) && !IsOccupied(b, ScanCell(start, k)) ==>
      score(ScanCell(start, k)) < score(m)
    ensures forall c: Index :: !IsOccupied(b, c) && score(c) >= score(m) ==> ScanStep(start, m) <= ScanStep(start, c)
  {
    forall c: Index | !IsOccupied(b, c) && score(c) >= score(m)
      ensures ScanStep(start, m) <= ScanStep(start, c)
    {
      assert ScanCell(start, ScanStep(start, c)) == c;
    }
  }

  /** A legal entry preceded only by illegal ones is the first legal entry
      from `from` on. */
  lemma EarliestLegalEntry(b: Board, entries: seq<int>, from: nat, to: nat)
    requires from < to <= |entries| && IsValidMove(entries[to - 1], b)
    requires forall j :: from <= j < to - 1 ==> !IsValidMove(entries[j], b)
    ensures forall j :: from <= j < |entries| && IsValidMove(entries[j], b) ==> to - 1 <= j
  {
  }

  /** The move of the current player: the computer searches, starting its
      scan at `roll % 9` (`roll` stands for the value `rand()` returns);
      a human player is asked until a legal move is entered. */
  method GetMove(g: Game, roll: nat, inputs: seq<int>) returns (move: Option<Index>, consumed: nat)
    requires g.players.Valid()
    ensures move.Some? ==> IsValidMove(move.value, g.board)
    ensures consumed <= |inputs|
    ensures g.players.At(g.current).isAI ==> consumed == 0 && (move.None? <==> IsOver(g.board))
    ensures g.players.At(g.current).isAI && move.Some? ==> forall c: Index :: !IsOccupied(g.board, c) ==>
      Minimax(g.players, g.board, g.current, g.current, c, 0)
        <= Minimax(g.players, g.board, g.current, g.current, move.value, 0)
    ensures g.players.At(g.current).isAI && move.Some? ==>
      forall k :: (0 <= k < ScanStep(roll % BoardLength, move.value) &&
                   !IsOccupied(g.board, ScanCell(roll % BoardLength, k))) ==>
        Minimax(g.players, g.board, g.current, g.current, ScanCell(roll % BoardLength, k), 0)
          < Minimax(g.players, g.board, g.current, g.current, move.value, 0)
    ensures (g.players.At(g.current).isAI && move.Some? &&
             exists c: Index :: !IsOccupied(g.board, c) &&
               CheckWinner(Placed(g.players, g.board, g.current, c), g.players.Symbol(g.current))) ==>
      CheckWinner(Placed(g.players, g.board, g.current, move.value), g.players.Symbol(g.current))
    ensures !g.players.At(g.current).isAI && move.None? ==> consumed == |inputs|
    ensures !g.players.At(g.current).isAI && move.Some? ==> 0 < consumed && inputs[consumed - 1] == move.value
    ensures !g.players.At(g.current).isAI ==>
      forall k :: 0 <= k < consumed && (move.None? || k < consumed - 1) ==> !IsValidMove(inputs[k], g.board)
    ensures move.Some? ==> IsChosenMove(g, roll, inputs, 0, consumed, move.value)
  {
    if g.players.At(g.current).isAI {
      move := AiMove(g.players, g.board, g.current, roll % BoardLength);
      consumed := 0;
    } else {
      move, consumed := HumanMove(g.board, inputs);
    }
  }

  /** One turn as played: the game before it, the move, the index of the
      `rand()` value the computer would use, and the entries read, from
      `readFrom` up to `readTo`. */
  datatype TurnRecord = TurnRecord(before: Game, move: Index, draw: nat, readFrom: nat, readTo: nat)

  /** The game before turn `k` of a match from `g` whose turns are `log`. */
  function GameBefore(g: Game, log: seq<TurnRecord>, k: nat): Game
    requires k <= |log|
  {
    if k == 0 then g else Turn(log[k - 1].before, log[k - 1].move).game
  }

  /** How many `rand()` values the turns before turn `k` used up. */
  function DrawsBefore(log: seq<TurnRecord>, k: nat): nat
    requires k <= |log|
  {
    if k == 0 then 0
    else log[k - 1].draw + (if log[k - 1].before.players.At(log[k - 1].before.current).isAI then 1 else 0)
  }

  /** How many input entries the turns before turn `k` read. */
  function CursorBefore(log: seq<TurnRecord>, k: nat): nat
    requires k <= |log|
  {
    if k == 0 then 0 else log[k - 1].readTo
  }

  /** Turn `k` of `log` follows on from the turns before it: it starts from
      the game they left, uses the next `rand()` value and the next unread
      entries, and plays the move `get_move` settles on there. */
  predicate FollowsOn(g: Game, rolls: nat -> nat, inputs: seq<int>, log: seq<TurnRecord>, k: nat)
    requires k < |log|
  {
    && log[k].before == GameBefore(g, log, k)
    && log[k].draw == DrawsBefore(log, k)
    && log[k].readFrom == CursorBefore(log, k)
    && log[k].readTo <= |inputs|
    && IsChosenMove(log[k].before, rolls(log[k].draw), inputs, log[k].readFrom, log[k].readTo, log[k].move)
  }

  /** Turn `k` of `log` neither won nor tied the match. */
  predicate Continued(log: seq<TurnRecord>, k: nat)
    requires k < |log|
  {
    Turn(log[k].before, log[k].move).status == Continue
  }

  /** `log` is the start of the match from `g`, with `rolls` the values of
      `rand()` and `inputs` the human players' entries. */
  predicate Replays(g: Game, rolls: nat -> nat, inputs: seq<int>, log: seq<TurnRecord>) {
    forall k :: 0 <= k < |log| ==> FollowsOn(g, rolls, inputs, log, k)
  }

  /** Appending the turn that follows on keeps the log a replay of the
      match, and moves the game, the `rand()` count and the input cursor on
      by that turn. */
  lemma ReplaysExtend(g: Game, rolls: nat -> nat, inputs: seq<int>, log: seq<TurnRecord>, r: TurnRecord)
    requires Replays(g, rolls, inputs, log)
    requires FollowsOn(g, rolls, inputs, log + [r], |log|)
    ensures Replays(g, rolls, inputs, log + [r])
    ensures GameBefore(g, log + [r], |log| + 1) == Turn(r.before, r.move).game
    ensures DrawsBefore(log + [r], |log| + 1) == r.draw + (if r.before.players.At(r.before.current).isAI then 1 else 0)
    ensures CursorBefore(log + [r], |log| + 1) == r.readTo
  {
    var log' := log + [r];
    forall k | 0 <= k < |log|
      ensures FollowsOn(g, rolls, inputs, log', k)
    {
      assert FollowsOn(g, rolls, inputs, log, k);
      assert log'[k] == log[k];
      assert k > 0 ==> log'[k - 1] == log[k - 1];
    }
  }

  /** A choice made on the unread entries `inputs[cursor..]` is a choice
      made on `inputs` reading from `cursor` on. */
  lemma ChosenMoveShift(game: Game, roll: nat, inputs: seq<int>, cursor: nat, used: nat, move: Index)
    requires cursor <= |inputs|
    requires IsChosenMove(game, roll, inputs[cursor..], 0, used, move)
    ensures IsChosenMove(game, roll, inputs, cursor, cursor + used, move)
  {
  }

  /** `get_move` on the entries not read yet, from `cursor` on: the move it
      settles on, and where reading stopped. No move is returned only to a
      human player none of whose remaining entries is legal. */
  method NextMove(game: Game, roll: nat, inputs: seq<int>, cursor: nat) returns (move: Option<Index>, to: nat)
    requires game.players.Valid()
    requires !IsOver(game.board)
    requires cursor <= |inputs|
    ensures move.Some? ==> IsChosenMove(game, roll, inputs, cursor, to, move.value)
    ensures move.None? ==> !game.players.At(game.current).isAI
    ensures move.None? ==> forall j :: cursor <= j < |inputs| ==> !IsValidMove(inputs[j], game.board)
  {
    var used;
    move, used := GetMove(game, roll, inputs[cursor..]);
    to := cursor + used;
    if move.None? {
      forall j | cursor <= j < |inputs|
        ensures !IsValidMove(inputs[j], game.board)
      {
        assert inputs[j] == inputs[cursor..][j - cursor];
      }
    } else {
      ChosenMoveShift(game, roll, inputs, cursor, used, move.value);
    }
  }

  /** The state of the match loop after the turns of `log`, every one of
      which continued: `game` is the game they left, still with the same
      players and not full; the marks of `g` stand; each turn took one cell
      and passed the move on; and `draws` and `cursor` count the `rand()`
      values and entries they used. */
  predicate InProgress(g: Game, rolls: nat -> nat, inputs: seq<int>, game: Game, log: seq<TurnRecord>, draws: nat, cursor: nat) {
    && game.players == g.players
    && !IsOver(game.board)
    && (forall c: Index :: IsOccupied(g.board, c) ==> game.board[c] == g.board[c])
    && EmptyCount(game.board) == EmptyCount(g.board) - |log|
    && game.current == PassedOn(g.current, |log|)
    && Replays(g, rolls, inputs, log)
    && game == GameBefore(g, log, |log|)
    && draws == DrawsBefore(log, |log|)
    && cursor == CursorBefore(log, |log|) && cursor <= |inputs|
    && forall k :: 0 <= k < |log| ==> Continued(log, k)
  }

  /** How a match from `g`, with `rolls` the values of `rand()` and `inputs`
      the human players' entries, comes out: it ended as `ending` on `final`
      after `turns` turns, recorded in `log`.
      - The log replays the match and `final` is the game its last turn
        left; every turn but the last continued (every turn, when the input
        ran out), and the last one won or tied as `ending` says.
      - The players never change, the marks of `g` stand, each turn took one
        cell, and the move passed strictly back and forth.
      - A win is a line of the player who just moved; a tie is a full board
        without that player's line; when the input runs out, a human player
        is to move on a board that is not full, and none of the entries left
        is a legal move. */
  predicate MatchOutcome(g: Game, rolls: nat -> nat, inputs: seq<int>,
                         ending: Ending, final: Game, turns: nat, log: seq<TurnRecord>) {
    && |log| == turns
    && Replays(g, rolls, inputs, log)
    && final == GameBefore(g, log, turns)
    && (forall k :: 0 <= k < turns && (ending.InputExhausted? || k < turns - 1) ==> Continued(log, k))
    && (ending.Winner? ==> 0 < turns && Turn(log[turns - 1].before, log[turns - 1].move).status == Won)
    && (ending.Tie? ==> 0 < turns && Turn(log[turns - 1].before, log[turns - 1].move).status == Tied)
    && final.players == g.players
    && (forall c: Index :: IsOccupied(g.board, c) ==> final.board[c] == g.board[c])
    && EmptyCount(final.board) == EmptyCount(g.board) - turns
    && (ending.InputExhausted? ==> final.current == PassedOn(g.current, turns))
    && (!ending.InputExhausted? ==> 0 < turns && final.current == PassedOn(g.current, turns - 1))
    && (ending.Winner? ==> ending.seat == final.current && CheckWinner(final.board, final.players.Symbol(final.current)))
    && (ending.Tie? ==> IsOver(final.board) && !CheckWinner(final.board, final.players.Symbol(final.current)))
    && (ending.InputExhausted? ==> !IsOver(final.board) && !final.players.At(final.current).isAI)
    && (ending.InputExhausted? ==>
          forall j :: CursorBefore(log, turns) <= j < |inputs| ==> !IsValidMove(inputs[j], final.board))
  }

  /** Two replays of the same match agree on every turn both have played:
      each turn starts from the same game, with the same `rand()` value and
      the same unread entries, so it plays the same move. */
  lemma {:induction false} ReplaysAgree(g: Game, rolls: nat -> nat, inputs: seq<int>,
                                        log1: seq<TurnRecord>, log2: seq<TurnRecord>, n: nat)
    requires Replays(g, rolls, inputs, log1) && Replays(g, rolls, inputs, log2)
    requires n <= |log1| && n <= |log2|
    ensures forall k :: 0 <= k < n ==> log1[k] == log2[k]
    ensures GameBefore(g, log1, n) == GameBefore(g, log2, n)
    ensures CursorBefore(log1, n) == CursorBefore(log2, n)
    ensures DrawsBefore(log1, n) == DrawsBefore(log2, n)
  {
    if n > 0 {
      var k := n - 1;
      ReplaysAgree(g, rolls, inputs, log1, log2, k);
      assert FollowsOn(g, rolls, inputs, log1, k);
      assert FollowsOn(g, rolls, inputs, log2, k);
      ChosenMoveIsUnique(log1[k].before, rolls(log1[k].draw), inputs, log1[k].readFrom,
                         log1[k].readTo, log2[k].readTo, log1[k].move, log2[k].move);
    }
  }

  /** A turn of a human player reads a legal entry, at or after the point
      where the turns before it stopped reading. */
  lemma HumanTurnReadsLegalEntry(g: Game, rolls: nat -> nat, inputs: seq<int>, log: seq<TurnRecord>, k: nat)
    requires Replays(g, rolls, inputs, log) && k < |log|
    requires !GameBefore(g, log, k).players.At(GameBefore(g, log, k).current).isAI
    ensures CursorBefore(log, k) <= log[k].readTo - 1 < |inputs|
    ensures IsValidMove(inputs[log[k].readTo - 1], GameBefore(g, log, k).board)
  {
    assert FollowsOn(g, rolls, inputs, log, k);
  }

  /** A match that ends in a win or a tie ends on a turn that did not
      continue, and plays on past none. */
  lemma LastTurnEnded(g: Game, rolls: nat -> nat, inputs: seq<int>,
                      ending: Ending, final: Game, turns: nat, log: seq<TurnRecord>)
    requires MatchOutcome(g, rolls, inputs, ending, final, turns, log)
    requires !ending.InputExhausted?
    ensures 0 < turns && !Continued(log, turns - 1)
  {
  }

  /** A match that stops after `t1` turns is no longer than any other
      outcome of the same match: the shorter one would have to stop at a
      turn the longer one plays on from, which is neither a turn that won
      or tied nor a point where no legal entry is left. */
  lemma OutcomeNoLonger(g: Game, rolls: nat -> nat, inputs: seq<int>,
                        e1: Ending, f1: Game, t1: nat, l1: seq<TurnRecord>,
                        e2: Ending, f2: Game, t2: nat, l2: seq<TurnRecord>)
    requires MatchOutcome(g, rolls, inputs, e1, f1, t1, l1)
    requires MatchOutcome(g, rolls, inputs, e2, f2, t2, l2)
    ensures t1 <= t2
  {
    if t2 < t1 {
      ReplaysAgree(g, rolls, inputs, l1, l2, t2);
      if e2.InputExhausted? {
        HumanTurnReadsLegalEntry(g, rolls, inputs, l1, t2);
        assert false;
      } else {
        LastTurnEnded(g, rolls, inputs, e2, f2, t2, l2);
        var sameTurn := Continued(l1, t2 - 1);
        assert false;
      }
    }
  }

  /** The outcome of a match is determined by the starting game, the values
      of `rand()` and the entries: any two outcomes of the same match have
      the same ending, final game, number of turns and log. */
  lemma MatchOutcomeIsUnique(g: Game, rolls: nat -> nat, inputs: seq<int>,
                             e1: Ending, f1: Game, t1: nat, l1: seq<TurnRecord>,
                             e2: Ending, f2: Game, t2: nat, l2: seq<TurnRecord>)
    requires MatchOutcome(g, rolls, inputs, e1, f1, t1, l1)
    requires MatchOutcome(g, rolls, inputs, e2, f2, t2, l2)
    ensures e1 == e2 && f1 == f2 && t1 == t2 && l1 == l2
  {
    OutcomeNoLonger(g, rolls, inputs, e1, f1, t1, l1, e2, f2, t2, l2);
    OutcomeNoLonger(g, rolls, inputs, e2, f2, t2, l2, e1, f1, t1, l1);
    ReplaysAgree(g, rolls, inputs, l1, l2, t1);
  }

  /** A pass of the match loop whose turn continues: playing the chosen
      move extends the log of a match in progress by one turn, and the
      match is still in progress, with one empty cell fewer. */
  lemma LoopContinues(g: Game, rolls: nat -> nat, inputs: seq<int>, game: Game, log: seq<TurnRecord>,
                      draws: nat, cursor: nat, move: Index, to: nat)
    requires g.players.Valid()
    requires InProgress(g, rolls, inputs, game, log, draws, cursor)
    requires IsChosenMove(game, rolls(draws), inputs, cursor, to, move)
    requires Turn(game, move).status == Continue
    ensures EmptyCount(Turn(game, move).game.board) < EmptyCount(game.board)
    ensures InProgress(g, rolls, inputs, Turn(game, move).game, log + [TurnRecord(game, move, draws, cursor, to)],
                       draws + (if game.players.At(game.current).isAI then 1 else 0), to)
  {
    var r := TurnRecord(game, move, draws, cursor, to);
    var log' := log + [r];
    ReplaysExtend(g, rolls, inputs, log, r);
    TurnStep(g, game, move, |log|);
    forall k | 0 <= k < |log|
      ensures Continued(log', k)
    {
      assert Continued(log, k) && log'[k] == log[k];
    }
  }

  /** A pass of the match loop whose turn ends the match: with that turn
      appended to the log, the match comes out as `MatchOutcome` says. */
  lemma LoopEnds(g: Game, rolls: nat -> nat, inputs: seq<int>, game: Game, log: seq<TurnRecord>,
                 draws: nat, cursor: nat, move: Index, to: nat)
    requires g.players.Valid()
    requires InProgress(g, rolls, inputs, game, log, draws, cursor)
    requires IsChosenMove(game, rolls(draws), inputs, cursor, to, move)
    requires Turn(game, move).status != Continue
    ensures MatchOutcome(g, rolls, inputs,
                         if Turn(game, move).status == Won then Winner(game.current) else Tie,
                         Turn(game, move).game, |log| + 1, log + [TurnRecord(game, move, draws, cursor, to)])
  {
    var r := TurnRecord(game, move, draws, cursor, to);
    var log' := log + [r];
    ReplaysExtend(g, rolls, inputs, log, r);
    TurnStep(g, game, move, |log|);
    forall k | 0 <= k < |log|
      ensures Continued(log', k)
    {
      assert Continued(log, k) && log'[k] == log[k];
    }
    assert |log'| - 1 == |log|;
  }

  /** A pass of the match loop in which a human player's remaining entries
      are all illegal: the match stops with the log as it stands. */
  lemma LoopStops(g: Game, rolls: nat -> nat, inputs: seq<int>, game: Game, log: seq<TurnRecord>,
                  draws: nat, cursor: nat)
    requires InProgress(g, rolls, inputs, game, log, draws, cursor)
    requires !game.players.At(game.current).isAI
    requires forall j :: cursor <= j < |inputs| ==> !IsValidMove(inputs[j], game.board)
    ensures MatchOutcome(g, rolls, inputs, InputExhausted, game, |log|, log)
  {
  }

  /** Plays turns until one ends the match. `rolls(n)` stands for the n-th
      value `rand()` returns (one per computer turn) and `inputs` for the
      human players' entries. `log` records every turn: each plays the move
      `get_move` settles on for the game the turns before it left, with the
      next `rand()` value or the next unread entries. */
  method Play(g: Game, rolls: nat -> nat, inputs: seq<int>)
    returns (ending: Ending, final: Game, turns: nat, log: seq<TurnRecord>)
    requires g.players.Valid()
    requires !IsOver(g.board)
    ensures MatchOutcome(g, rolls, inputs, ending, final, turns, log)
  {
    var game := g;
    var cursor := 0;
    var draws := 0;
    turns := 0;
    log := [];
    while true
      invariant turns == |log| && InProgress(g, rolls, inputs, game, log, draws, cursor)
      decreases EmptyCount(game.board)
    {
      var move, to := NextMove(game, rolls(draws), inputs, cursor);
      if move.None? {
        LoopStops(g, rolls, inputs, game, log, draws, cursor);
        ending, final := InputExhausted, game;
        return;
      }
      var r := TurnRecord(game, move.value, draws, cursor, to);
      var t := Turn(game, move.value);
      if t.status != Continue {
        LoopEnds(g, rolls, inputs, game, log, draws, cursor, move.value, to);
        ending := if t.status == Won then Winner(game.current) else Tie;
        final, turns, log := t.game, turns + 1, log + [r];
        return;
      }
      LoopContinues(g, rolls, inputs, game, log, draws, cursor, move.value, to);
      game, log, draws, cursor, turns :=
        t.game, log + [r], draws + (if game.players.At(game.current).isAI then 1 else 0), to, turns + 1;
    }
  }

  /** One turn of the match loop from `game`, reached after `turns` turns
      from `g`: the legal move takes one more cell, the marks of `g` stay,
      and the turn moves on only when the match goes on, in which case the
      board is still not full. */
  lemma TurnStep(g: Game, game: Game, move: Index, turns: nat)
    requires game.players.Valid()
    requires IsValidMove(move, game.board)
    requires forall c: Index :: IsOccupied(g.board, c) ==> game.board[c] == g.board[c]
    requires EmptyCount(game.board) == EmptyCount(g.board) - turns
    requires game.current == PassedOn(g.current, turns)
    ensures var t := Turn(game, move);
      && t.game.players == game.players
      && (forall c: Index :: IsOccupied(g.board, c) ==> t.game.board[c] == g.board[c])
      && EmptyCount(t.game.board) == EmptyCount(g.board) - (turns + 1)
      && (t.status == Continue ==> !IsOver(t.game.board) && t.game.current == PassedOn(g.current, turns + 1))
      && (t.status != Continue ==> t.game.current == PassedOn(g.current, turns))
  {
    ValidMoveFillsOneCell(game.board, game.players.Symbol(game.current), move);
  }

  /** A freshly set-up game can be played: its board is not full. */
  lemma NewBoardNotOver(g: Game)
    requires forall c: Index :: !IsOccupied(g.board, c)
    ensures !IsOver(g.board)
  {
  }

  /** Filling the last cell of "xoxxo-oxx" with 'o' makes no line: a tie. */
  lemma TieScenario()
    ensures Turn(Game(Roster(Player('x', true), Player('o', true)), "xoxxo-oxx", PlayerTwo), 5).status == Tied
  {
  }
}
