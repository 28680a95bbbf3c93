# Tic-tac-toe game engine, modelled in Dafny

This project models the game engine of a command-line tic-tac-toe program
(`main.c`). The model covers:

- the 3x3 board of `char` cells, with `'-'` marking an empty cell;
- the win and legality rules;
- the exhaustive minimax search the computer player uses, and its choice
  of move;
- the turn loop that alternates the two players until one of them wins or
  the board is full.

Modules, leaves first:

- `Wrappers` (`wrappers.dfy`): `Option`. It stands for a value the C code
  leaves uninitialised: minimax's `bestScore` before the first reply, and
  `get_move`'s `move` on a full board.
- `BoardModel` (`board.dfy`): the board as a 9-character sequence, with
  `clear_space`, `is_occupied`, `is_occupied_by_player`, `set_occupied_by`,
  `new_copy` and `is_over`. It also has a count of empty cells, which serves
  as the termination measure of the search.
- `Rules` (`rules.dfy`): `check_winner`, written with the row loop, the
  column loop and the two diagonal tests of the source. It is proved equal
  to a reference list of the eight winning lines. `is_valid_move` is here too.
- `Players` (`players.dfy`): a player's symbol and AI flag. The two player
  records point at each other through their `opponent` fields. That 2-cycle
  becomes a seat number (0 for player one, 1 for player two), and
  `Opponent(s) = 1 - s`. The address comparison `p == p_maximize` becomes seat
  equality.
- `Search` (`search.dfy`): `minimax` and its cell loop (`Minimax`,
  `BestReply`), and the computer branch of `get_move` (`ScanForBest`,
  `AiMove`).
- `TurnDriver` (`turn_driver.dfy`): `new_game`, one turn of `play`
  (`Turn`), the move choice (`GetMove`, `HumanMove`), and the whole match
  (`Play`).

Notes on the model:

- Cell indices are the subset type `Index` (0..8). The C functions index
  the array without a check, so an out-of-range index is undefined
  behaviour there. Only `is_valid_move` accepts an arbitrary `int`, and it
  rejects anything outside 0..8.
- `Roster.Valid` asks that neither symbol is `'-'`. With `'-'` as a symbol,
  `set_occupied_by` would leave the cell empty, and `minimax` could recurse
  without end. The program itself uses `'x'` and `'o'` (main.c:105). The
  code never relies on the two symbols being different, so the model does
  not require it.
- `minimax` is only ever called on an empty cell, but as written it also
  accepts an occupied one: the placement is then a no-op. The model keeps
  that case. Its termination measure is the number of empty cells, then
  whether the cell is occupied.
- The selection at main.c:198 is the usual minimax rule. When the mover is
  the maximiser, the next ply belongs to the opponent, so the result is the
  minimum of the opponent's replies. Otherwise it is the maximum.
  `MinimaxAggregate` states exactly this. `TopScoreIffImmediateWin` and
  `AiMove` show one consequence: the computer always takes a winning move
  when one exists.
- The score bound needs more than `depth >= 0`. A win scores `10 - depth`,
  which is below -10 once `depth > 20`. `Minimax` therefore states
  `depth - 10 <= r <= 10 - depth` whenever the cell is empty and
  `depth + (empty cells) <= 9`. Every call reachable from `get_move` meets
  this: it starts at depth 0, and each ply adds one to the depth and fills
  one cell. Within that range, and with `depth >= 0` as well, every score
  lies in [-10, 10]; a negative depth can push a win above 10.
- `rand()` is a parameter: `AiMove` takes its scan start in 0..8, and
  `Play` takes `rolls`, the values `rand()` returns, one per computer turn.
  Human input is a finite sequence of integers. When it runs out before a
  legal move is entered, the match ends as `InputExhausted`; the C program
  would block on the terminal instead.
- Boards are values, so `new_copy` returns a board equal to its source. A
  later change to the copy cannot reach the original.
- `Play` returns a log of the match, one `TurnRecord` per turn: the game
  before the turn, the move, which `rand()` value it used and which entries
  it read. `IsChosenMove` says which move `get_move` settles on, and
  `MatchOutcome` gathers what `Play` promises. `MatchOutcomeIsUnique` shows
  that these promises leave no freedom: the starting game, the `rand()`
  values and the entries determine the whole match.

## Model

| member | source | states |
|---|---|---|
| BoardModel.OccupiedIffHoldsSymbol | main.c:133-135 | a cell is occupied iff it holds some symbol other than '-' |
| BoardModel.IsOccupiedBy | main.c:137-139 | a cell holding a player's (non-'-') symbol counts as occupied |
| BoardModel.ClearSpace | main.c:129-131 | the cleared cell is empty afterwards and the other eight cells are unchanged |
| BoardModel.SetOccupiedBy | main.c:241-248 | an occupied cell is never overwritten (the board is returned unchanged); an empty cell gets the symbol; no other cell changes |
| BoardModel.ClearThenSet | main.c:241-248 | occupying a cell right after clearing it puts exactly that symbol there and restores every other cell |
| BoardModel.FillDecrementsEmptyCount | main.c:241-248 | placing a real symbol on an empty cell removes exactly one empty cell |
| BoardModel.NewCopy | main.c:161-166 | the cell-by-cell copy loop yields a board equal to the source, whatever the destination held before |
| BoardModel.FullFrom | main.c:250-259 | the early-return scan of `is_over` from a cell is true iff every cell from there on is occupied |
| BoardModel.EmptyCountFrom | main.c:250-259 | the number of empty cells from a position onward is at most the number of cells left, and is zero iff the `is_over` scan from there reports the board full |
| BoardModel.OverIffNoEmptyCell | main.c:250-259 | `is_over` holds iff no cell is empty, with no reference to any winner |
| Rules.CheckWinner | main.c:141-159 | the row loop, column loop and two diagonal tests hold iff the symbol fills one of the eight lines (0,1,2) (3,4,5) (6,7,8) (0,3,6) (1,4,7) (2,5,8) (0,4,8) (2,4,6) |
| Rules.OverIffNoValidMove | main.c:214-216 | the board is full iff no integer is a legal move on it |
| Rules.ValidMoveFillsOneCell | main.c:214-216 | a legal move, once played, holds the mover's symbol and leaves one empty cell fewer |
| Rules.OutOfRangeNeverValid | main.c:214-216 | a negative index or an index of 9 or more is never a legal move |
| Rules.TopRowScenario | main.c:141-159 | on "xx-------", 'x' has not won, and 'x' playing cell 2 completes the top row |
| Rules.FullBoardWithoutLine | main.c:141-159 | "xoxxoooxx" is full and is no win for either 'x' or 'o' |
| Players.Opponent | main.c:113-114 | each seat's opponent is the other seat: player one's is player two and vice versa |
| Players.OpponentIsInvolution | main.c:113-114 | following the opponent link twice leads back to the same player |
| Search.PlacedEmptyCount | main.c:181-183 | the copied-and-placed board has one empty cell fewer than the input when the cell was empty, and the same count when it was occupied |
| Search.Minimax | main.c:180-205 | for an empty cell with depth plus empty cells at most 9, the score lies between depth - 10 and 10 - depth; when in addition depth >= 0, it lies within [-10, 10] |
| Search.BestReply | main.c:191-204 | the cell loop sets its best score whenever some cell is empty; the result is one of the scores of the empty cells (or the earlier best), and is at most (minimising) or at least (maximising) each of them |
| Search.MinimaxTerminal | main.c:184-189 | a win for the mover scores 10 - depth for the maximiser and depth - 10 otherwise; a full board without that win scores 0 |
| Search.MinimaxAggregate | main.c:195-204 | away from a terminal board, the score equals the score of some empty cell replied by the opponent one ply deeper; it is the minimum of these when the mover is the maximiser, the maximum otherwise |
| Search.ShallowerWinsCountMore | main.c:184-186 | among wins, a shallower depth scores strictly more for the maximiser and strictly less for the other seat |
| Search.TopScoreIffImmediateWin | main.c:180-205 | at depth 0 with the mover as maximiser, the score is 10 iff the move wins on the spot |
| Search.TopRowScoresTen | main.c:180-189 | 'x' completing the top row of "xx-------" at depth 0 scores 10 |
| Search.ScanStep | main.c:223-225 | the wrapping scan from any start reaches every cell, at exactly one of its nine steps |
| Search.ScanForBest | main.c:221-232 | the scan returns no cell iff the board is full; otherwise it returns an empty cell whose score is the greatest, and every empty cell scanned before it scores strictly less |
| Search.AiMove | main.c:218-232 | the computer's move is an empty cell with the greatest minimax score; ties go to the first cell in scan order; a winning move is chosen whenever one exists; a full board gives no move |
| TurnDriver.NewGame | main.c:110-127 | the board is the all-empty board whatever it held before, so it is not full; the roster holds both players; player one moves first |
| TurnDriver.NewBoardNotOver | main.c:121-123 | a board with every cell empty is not full |
| TurnDriver.Turn | main.c:266-279 | the mover's symbol is placed; a win is reported iff the mover completes a line; a tie iff there is no such line and the board is full; otherwise the turn passes to the opponent |
| TurnDriver.WinBeatsFullBoard | main.c:268-273 | a move that both fills the board and completes a line ends the match as a win, not a tie |
| TurnDriver.TwoTurnsReturnToPlayer | main.c:275-279 | after one continuing turn the other player moves; after two the first player moves again |
| TurnDriver.PassedOnParity | main.c:275-279 | passing the turn an even number of times returns it to the same player, an odd number to the other |
| TurnDriver.HumanMove | main.c:234-236 | input entries are read until one is a legal move, which is returned; every entry skipped before it is illegal |
| TurnDriver.GetMove | main.c:218-239 | any returned move is legal; a computer player consumes no input and returns a move iff the board is not full: an empty cell with the greatest minimax score, every empty cell before it in the scan from `roll % 9` scoring strictly less, and a winning cell whenever one exists; a human player's move is the first legal entry, at position `consumed - 1`, every earlier entry being illegal, and running out of entries returns no move; every returned move is the one `IsChosenMove` characterises |
| TurnDriver.TurnStep | main.c:264-279 | one turn after a legal move keeps the earlier marks, removes one empty cell, and passes the turn on only when the match continues, with the board still not full |
| TurnDriver.ChosenMoveIsUnique | main.c:218-239 | the characterisation of the move `get_move` returns leaves no choice: for the same game, `rand()` value and entries there is one move and one number of entries read |
| TurnDriver.EarliestBestInScan | main.c:223-231 | a cell that strictly beats every empty cell scanned before it comes no later in the scan than any empty cell scoring at least as much |
| TurnDriver.EarliestLegalEntry | main.c:234-236 | a legal entry preceded only by illegal ones is the first legal entry of the input |
| TurnDriver.NextMove | main.c:266 | `get_move` on the entries not yet read returns the characterised move for the current game, or, only for a human player, nothing when none of the remaining entries is legal |
| TurnDriver.ReplaysAgree | main.c:261-281 | two logs of the same match, from the same game with the same `rand()` values and entries, agree turn by turn, and so reach the same game, input position and `rand()` count |
| TurnDriver.LoopContinues | main.c:264-279 | a turn that neither wins nor ties extends the log by one turn that plays the chosen move, keeps the players and the earlier marks, removes one empty cell and hands the move to the other player |
| TurnDriver.LoopEnds | main.c:264-274 | a turn that wins or ties ends the match with that turn as the last of the log: a win is the mover's line, a tie a full board without it |
| TurnDriver.LoopStops | main.c:234-236 | a human player with no legal entry left stops the match on a board that is not full, with every logged turn continued |
| TurnDriver.OutcomeNoLonger | main.c:261-281 | an outcome of a match has no more turns than any other outcome of the same match, since the loop cannot play on past a turn that won or tied, or past a point where no legal entry is left |
| TurnDriver.MatchOutcomeIsUnique | main.c:261-281 | the outcome of a match (ending, final game, number of turns, log) is determined by the starting game, the `rand()` values and the entries |
| TurnDriver.Play | main.c:261-281 | every turn plays the move `get_move` settles on for the game the turns before it left, with the mover's symbol, using the next `rand()` value (computer) or the next unread entries (human); the match ends in a win for the player who just moved, a full board without that player's line, or input with no legal entry left; marks already on the board never change; each turn fills one cell; the turn alternates strictly |
| TurnDriver.TieScenario | main.c:268-273 | 'o' filling the last cell of "xoxxo-oxx" makes no line, so the turn ends in a tie |

## Left out

- `print_board`, `get_input`, `main` and the `printf`/`puts` calls in
  `play`: these are terminal I/O, and `print_board` also uses
  floating-point `sqrt`.
- `srand(time(NULL))` and `rand()`: their values become parameters (the
  scan start of `AiMove`, the `rolls` of `Play`).
- Player names: they are display strings only.
- The human branch of `get_move` waits for terminal input without limit.
  It is modelled over a finite input sequence, and running out of input is
  a separate ending.
- The game-theoretic value of the empty board (a forced draw) is not
  stated. The code makes no such claim, and proving it would mean
  evaluating the whole game tree.
- Search.Minimax: its score bound is stated only when the cell is empty
  and depth plus empty cells is at most 9, and the [-10, 10] bound also
  needs depth >= 0. Outside that range a win can score below -10 (large
  depth) or above 10 (negative depth).
