# Tic-Tac-Toe computer opponent: minimax engine and game adapter

This project models the computer opponent of a generalised N×N Tic-Tac-Toe
whose winning run has length K, and proves properties of that model in
Dafny. It has three parts, one Dafny file each:

- `minimax_lib.dfy`, module `MinimaxLib`: the generic, depth-bounded,
  exhaustive minimax search without pruning. It is parameterised by a
  `Game` record holding the four callbacks (move enumeration, move
  application, static evaluation, terminal test). `Minimax` is the
  recursive function. On each level the source's `for` loop keeps a
  running best score and best move; `Pick` is that loop as a left fold.
  `Search` is the method that runs the loop as written and is proved equal
  to `Minimax`. The float sentinels `-inf`/`+inf` become the extended
  integer `Score = NegInf | Fin(int) | PosInf`. `Maximum`/`Minimum` (right
  folds) are the independent reference the loop is proved against.
- `game_functions.dfy`, module `GameFunctions`: board creation (each empty
  cell holds its 1-based position as a decimal numeral), the win check
  `CheckWinner` as a disjunction of four bounded existentials (rows,
  columns, ↘ diagonals, ↙ anti-diagonals), and the free-spot filter of the
  computer's random move.
- `tictactoe_adapter.dfy`, modules `TicTacToeAdapter` and
  `AdapterProperties`: the adapter holding size, run length and the two
  marks (an immutable datatype, because the fields are never changed after
  construction); its callbacks `GetMoves`, `ApplyMove`, `Evaluation` /
  `Evaluate`, `IsTerminal`; `BestMove`; and `GenerateLines`, the nested
  loops that materialise every candidate line. `AdapterProperties` holds
  the lemmas that relate the adapter, the win check and the search.

A board is a `seq<string>` of length size², row-major. The source compares
cells with the mark strings, so the model keeps the strings (an empty cell
is its label) rather than a three-valued cell type.

With a non-terminal state, positive depth and an empty move list,
`minimax` returns its initial sentinel: `(-inf, None)` when maximising
(src/minimax_lib.py:44-56) and `(+inf, None)` when minimising
(src/minimax_lib.py:59-71). `MinimaxLib.MinimaxNoMoves` states this. For
the adapter this case cannot arise: `AdapterProperties.TerminalIff` shows
that a non-terminal board always has a move.

## Model

| member | source | states |
|---|---|---|
| `MinimaxLib.Search` | src/minimax_lib.py:13-71 | The recursive search with its per-level loop returns exactly the (score, move) of the specification `Minimax` |
| `MinimaxLib.MinimaxBaseCase` | src/minimax_lib.py:40-41 | At depth 0 or on a terminal state the result is the static evaluation and no move |
| `MinimaxLib.MinimaxScore` | src/minimax_lib.py:43-71 | In the recursive case the score is the maximum (maximising) or minimum (minimising) over the enumerated moves of the child's score at depth-1 with the flag flipped |
| `MinimaxLib.MinimaxBoundsChildren` | src/minimax_lib.py:46-71 | The score bounds every child's score from above when maximising and from below when minimising |
| `MinimaxLib.MinimaxMove` | src/minimax_lib.py:46-70 | A returned move only comes from the recursive case; it is one of the enumerated moves, its child scores exactly the returned score, and every earlier move's child scores strictly worse |
| `MinimaxLib.MinimaxFirstOfAscending` | src/minimax_lib.py:53-70 | With moves enumerated in ascending order, every smaller move scores strictly worse than the returned one: ties go to the first optimal move |
| `MinimaxLib.MinimaxMovePresent` | src/minimax_lib.py:44-71 | In the recursive case a move is returned iff some child's score beats the initial sentinel |
| `MinimaxLib.MinimaxNoMoves` | src/minimax_lib.py:44-71 | In the recursive case an empty move list gives (-inf, None) when maximising and (+inf, None) when minimising |
| `MinimaxLib.MinimaxFinite` | src/minimax_lib.py:43-71 | A non-empty move list whose children all score finitely gives a finite score and a move |
| `MinimaxLib.NestingBound` | src/minimax_lib.py:49-67 | Each recursive call lowers depth by one, so calls nest at most `depth` deep, and at least one deep in the recursive case |
| `MinimaxLib.PickSpec` | src/minimax_lib.py:44-56 | After k loop iterations no score seen beats the running best; the move is None iff the best is still the sentinel; otherwise it is the first move reaching the best |
| `MinimaxLib.Minimax` | src/minimax_lib.py:13-71 | The search as a function of state, depth, side and callbacks; characterised by MinimaxBaseCase, MinimaxScore, MinimaxMove, MinimaxFirstOfAscending, MinimaxMovePresent, MinimaxNoMoves, and proved equal to the loop of `Search` |
| `MinimaxLib.Pick` | src/minimax_lib.py:44-71 | The running (best score, best move) of one level after k iterations of its loop; characterised by PickSpec and PickIsExtreme |
| `MinimaxLib.PickIsExtreme` | src/minimax_lib.py:58-71 | The loop's final best score is the maximum of the child scores when maximising and their minimum when minimising |
| `MinimaxLib.MaximumIsGreatest` | src/minimax_lib.py:44-56 | The reference maximum is at least every score, is one of them, and is -inf for none |
| `MinimaxLib.MinimumIsLeast` | src/minimax_lib.py:59-71 | The reference minimum is at most every score, is one of them, and is +inf for none |
| `GameFunctions.CreateBoard` | src/game_functions.py:41-56 | A new board has size·size cells |
| `GameFunctions.CreateBoardLabels` | src/game_functions.py:56 | Cell i of a new board is a decimal numeral reading back as i+1, and is neither "X" nor "O" |
| `GameFunctions.Numeral` | src/game_functions.py:56 | The decimal numeral of n is a non-empty digit string with no leading zero (unless n is 0); NumeralRoundTrip shows it reads back as n |
| `GameFunctions.NumeralRoundTrip` | src/game_functions.py:56 | The numeral written for a cell label reads back as that number |
| `GameFunctions.FreeCells` | src/game_functions.py:184 | The free-cell list is strictly ascending and holds exactly the indices whose cell is neither mark |
| `GameFunctions.FreeSpots` | src/game_functions.py:184 | The free-spot list is strictly ascending and holds exactly the indices whose cell is neither "X" nor "O" |
| `GameFunctions.FreeSpotsOfNewBoard` | src/game_functions.py:184 | On a new board every index 0..size²-1 is a free spot, in order |
| `GameFunctions.ComputerMove` | src/game_functions.py:174-185 | The computer's fallback move is a member of the free-spot list: an index on the board whose cell is neither "X" nor "O" |
| `GameFunctions.CheckWinner` | src/game_functions.py:100-144 | Some row, column, ↘ or ↙ window of to_win cells all hold `player`; characterised by WinnerIffOwnsLine, CheckWinnerIgnoresOtherCells, NoWinnerWhenRunTooLong and CellInBounds |
| `GameFunctions.CellInBounds` | src/game_functions.py:114-143 | Every cell the win check reads lies in [0, size²) |
| `GameFunctions.NoWinnerWhenRunTooLong` | src/game_functions.py:114-144 | When to_win exceeds size no window exists and nobody has won |
| `GameFunctions.CheckWinnerIgnoresOtherCells` | src/game_functions.py:114-143 | Rewriting a cell that holds `player` neither before nor after cannot change whether `player` has won |
| `TicTacToeAdapter.Adapter.GetMoves` | src/tictactoe_adapter.py:42-48 | The moves are strictly ascending and are exactly the indices whose cell holds neither mark |
| `TicTacToeAdapter.Adapter.ApplyMove` | src/tictactoe_adapter.py:67-69 | The new board has the same length, holds the computer's mark (maximising) or the human's at `move`, and equals the old board elsewhere |
| `TicTacToeAdapter.Adapter.Evaluation` | src/tictactoe_adapter.py:85-98 | A computer win scores 100 (checked first, so it wins even if the human also has a line); otherwise a human win scores -100 |
| `TicTacToeAdapter.Adapter.Evaluate` | src/tictactoe_adapter.py:85-98 | The evaluation computed as the source does it (win checks, generated lines, accumulating loop) equals `Evaluation` |
| `TicTacToeAdapter.Adapter.SumLineScores` | src/tictactoe_adapter.py:91-98 | The loop over the lines accumulates exactly the sum of the per-line terms (+computer count on lines without human marks, -human count on lines without computer marks, 0 otherwise) |
| `TicTacToeAdapter.Adapter.GenerateLines` | src/tictactoe_adapter.py:146-166 | The nested loops produce exactly the rows, then columns, then diagonals, then anti-diagonals of `Lines` |
| `TicTacToeAdapter.Adapter.AppendFamily` | src/tictactoe_adapter.py:150-165 | One pair of nested loops appends exactly its family of windows |
| `TicTacToeAdapter.Adapter.AppendInner` | src/tictactoe_adapter.py:151-165 | One inner loop appends exactly the windows for its outer index |
| `TicTacToeAdapter.Adapter.IsTerminal` | src/tictactoe_adapter.py:110-114 | Human win, computer win or full board; characterised by TerminalIff and FullIffNoMoves |
| `TicTacToeAdapter.Adapter.BestMove` | src/tictactoe_adapter.py:127-136 | The move part of a maximising search with the adapter's callbacks; characterised by BestMoveDefined and BestMoveIsFirstOptimal |
| `TicTacToeAdapter.Adapter.Callbacks` | src/tictactoe_adapter.py:127-136 | The four bound callbacks handed to the engine; on valid boards they agree with GetMoves, ApplyMove, Evaluation and IsTerminal (used by SearchFinite and MoveValues) |
| `TicTacToeAdapter.Window` | src/tictactoe_adapter.py:150-165 | The K indices of the run of one direction from a start cell; its length is K |
| `TicTacToeAdapter.Family` | src/tictactoe_adapter.py:150-165 | The windows of one direction in loop order; characterised by FamilyLength and FamilyMembers |
| `TicTacToeAdapter.Lines` | src/tictactoe_adapter.py:146-166 | Rows, then columns, then diagonals, then anti-diagonals; characterised by LinesCount, LinesInBounds, LinesMembers, NoLinesWhenRunTooLong and WinnerIffOwnsLine |
| `TicTacToeAdapter.LineScore` | src/tictactoe_adapter.py:92-98 | One line's term: +computer count when the human has none, -human count when the computer has none, else 0; bounded by LineScoreBound |
| `TicTacToeAdapter.Heuristic` | src/tictactoe_adapter.py:89-98 | The sum of the line terms; characterised by HeuristicAntisymmetric, HeuristicBounds and HeuristicOfUnmarked |
| `TicTacToeAdapter.Count` | src/tictactoe_adapter.py:92-93 | A line's mark count is at most its length, and equals it iff every cell of the line holds that mark |
| `TicTacToeAdapter.LinesCount` | src/tictactoe_adapter.py:146-166 | For 1 ≤ K ≤ N there are exactly 2·N·(N−K+1) + 2·(N−K+1)² lines |
| `TicTacToeAdapter.FamilyLength` | src/tictactoe_adapter.py:150-165 | Rows and columns give N·(N−K+1) lines each, the two diagonal directions (N−K+1)² each |
| `TicTacToeAdapter.NoLinesWhenRunTooLong` | src/tictactoe_adapter.py:150-165 | For K > N no line is generated |
| `TicTacToeAdapter.LinesInBounds` | src/tictactoe_adapter.py:146-166 | Every generated line has length K and every index lies in [0, N²) |
| `TicTacToeAdapter.LinesMembers` | src/tictactoe_adapter.py:150-165 | The generated lines are exactly the windows starting where a run of some direction may start |
| `TicTacToeAdapter.WinnerIffOwnsLine` | src/tictactoe_adapter.py:146-166 | `player` holds every cell of some generated line iff the win check says `player` has won |
| `TicTacToeAdapter.HeuristicAntisymmetric` | src/tictactoe_adapter.py:91-98 | Exchanging the two marks negates the line-score sum |
| `TicTacToeAdapter.HeuristicBounds` | src/tictactoe_adapter.py:91-98 | With no line owned by either player, the sum lies within ±(K−1)·(number of lines) |
| `AdapterProperties.GetMovesIgnoresSide` | src/tictactoe_adapter.py:42-48 | The move list does not depend on the side to move |
| `AdapterProperties.FullIffNoMoves` | src/tictactoe_adapter.py:110-114 | Every cell holds a mark iff there is no move |
| `AdapterProperties.TerminalIff` | src/tictactoe_adapter.py:110-114 | The game is over iff there is no move or either player has won; so a board that is not terminal has a move |
| `AdapterProperties.MoveFillsOneCell` | src/tictactoe_adapter.py:67-69 | Playing a free cell removes exactly that index from the moves, which become one fewer |
| `AdapterProperties.MoveKeepsOtherWinner` | src/tictactoe_adapter.py:67-69 | A move by one side never changes whether the other side has won |
| `AdapterProperties.EvaluationOfUndecided` | src/tictactoe_adapter.py:89-98 | When neither side has won, the evaluation is the line-score sum over all generated lines |
| `AdapterProperties.EvaluationBounds` | src/tictactoe_adapter.py:89-98 | When neither side has won, the evaluation lies within ±(K−1)·(number of lines) |
| `AdapterProperties.WinsOutrankHeuristic` | src/tictactoe_adapter.py:85-98 | With three to win on sides 3 to 5, an undecided position scores strictly between -100 and 100 |
| `AdapterProperties.EvaluationAntisymmetric` | src/tictactoe_adapter.py:85-98 | For an undecided position, swapping the two marks negates the evaluation |
| `AdapterProperties.FreshBoard` | src/game_functions.py:41-56 | On a new board every cell is a move, nobody has won, and a non-empty board is not terminal |
| `AdapterProperties.FreshBoardEvaluation` | src/tictactoe_adapter.py:85-98 | A new board evaluates to 0 |
| `AdapterProperties.NoWinnerWithoutMarks` | src/game_functions.py:114-144 | A player with no mark on the board has not won (for K ≥ 1) |
| `AdapterProperties.SearchFinite` | src/minimax_lib.py:40-71 | Over Tic-Tac-Toe boards every search score is finite, and a search below a non-terminal board returns a move |
| `AdapterProperties.BestMoveDefined` | src/tictactoe_adapter.py:127-136 | `BestMove` gives no move iff depth is 0 or the board is already terminal |
| `AdapterProperties.BestMoveIsFirstOptimal` | src/tictactoe_adapter.py:127-136 | Otherwise it gives a free cell whose value is the search value, no free cell is worth more, and every smaller free cell is worth strictly less |

## Left out

- Rendering (`print_board`, the colour constants, the introduction text) and the console loops `get_player_move` and `ask_to_continue`: terminal I/O only.
- The random choice of `get_computer_move`: `ComputerMove` picks some free spot without saying which.
- All of `main.py` (the game loops, the depth chosen from difficulty and board size, the interpreter version check): orchestration and console I/O.
- Floating point: the `-inf`/`+inf` sentinels are the `NegInf`/`PosInf` of `Score`; no other float is involved.
- Performance: the exponential number of calls and the regeneration of the lines on every evaluation affect speed, not results.
- Negative `depth`, `size` or `to_win`: these are `nat` in the model. In the source a negative depth never meets the depth-0 cutoff.
- GameFunctions.CheckWinner: requires a board of exactly size² cells. On a shorter list the source may raise IndexError, when its scan reaches a missing index before it finds a run; on a longer list it reads only the first size² cells.
- TicTacToeAdapter.Adapter.Callbacks: a move off the board or a board of the wrong length maps to a fixed value. The source raises or, for a negative index, wraps around. From a valid board the search never reaches these inputs.
- No lemma says the two players cannot both have a line: that depends on the move history, which a board does not record.
- No lemma evaluates a concrete game tree: nothing is proved about the outcome of play from a particular board.
- `apply_move` copies the list and then assigns one element of the copy; in the model boards are values, so `ApplyMove` returns the updated board and the parent and child never alias by construction.
- AdapterProperties.WinsOutrankHeuristic: stated only for three in a row on sides 3 to 5. From side 6 on (80 lines of three) an arbitrary board can exceed 100 without a win, for example 19 computer marks and no human mark arranged with no run of three, so the bound does not extend to all boards; nothing is proved about the positions actually reached in play.
