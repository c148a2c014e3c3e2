# Tic-tac-toe with a minimax opponent, modelled in Dafny

The program plays tic-tac-toe on a 3×3 grid whose cells hold `X`, `O` or
nothing. X moves first. The turn is found by counting marks. A move is a
`(row, column)` pair. A board is over when one mark fills a line (a row, a
column or a diagonal) or when no cell is free. The computer answers with a
minimax search:
- `Min_Value` and `Max_Value` evaluate a board exactly, recursing over every
  continuation.
- `minimax` walks the legal moves in row-major order and keeps the first
  move whose value is strictly best for the side to move.
- On the empty board it instead opens with a random cell.

The model has four modules, one per file:

- `TicTacToe` (`board.dfy`) holds the board as values: cells, boards, moves
  and the program's errors. It defines the pure functions `Initial`, `Turn`,
  `Apply`/`Place`, `EmptyCells`, `Winner`, `IsTerminal` and `Utility`, with
  lemmas that state what each one means.
- `Search` (`search.dfy`) holds the game-tree values `MinVal` and `MaxVal`
  as mutually recursive functions. The recursion measure is the number of
  empty cells. It also defines the running minimum and maximum of a list
  of scores, and `FirstBest`, which says which move `minimax` selects. Its
  lemmas cover optimality, determinism and the value of the chosen move.
- `Engine` (`engine.dfy`) has seven methods: `Player` (`player`),
  `Actions` (`actions`), `Result` (`result`), `Terminal` (`terminal`),
  `MinValue` (`Min_Value`), `MaxValue` (`Max_Value`) and `Minimax`
  (`minimax`). Each method keeps the program's loops: the counting loop,
  the nested loops that collect moves, the copy-and-overwrite, the scan
  with early return, and the search loops.
  - The first six are proved to return exactly the corresponding function
    of `TicTacToe` or `Search`.
  - `Minimax` is proved to return the opening parameter, nothing, or the
    turn's error where the program does. Otherwise it returns the legal
    move at the position that `FirstBest` picks out, and `FirstBestUnique`
    makes that position unique.
- `Scenarios` (`scenarios.dfy`) works through concrete positions:
  - the empty board;
  - a row won by X;
  - a drawn full board;
  - a position where X wins in one move. On this position the `Engine`
    search is proved to return the winning cell.

The program's `initial_state` and `utility` have no loop and are modelled
only as the functions `Initial` and `Utility`. The loops of `winner` over
the rows and the columns (tictactoe.py:103-114) have early returns and no
other state. They become the recursion of `WinnerFrom` over the constant
`Lines`, so `winner` has no method.

Errors the program raises with `ValueError` become `Err(InvalidState)` and
`Err(IllegalMove)`. `InvalidState` covers a board with more O than X, and
`IllegalMove` an occupied target cell. They are values of the `Checked<T>`
result type. `math.inf` and `-math.inf` appear only as starting values of a
running minimum or maximum over values in -1..1. They become the sentinels
2 and -2, which behave the same for every comparison the program makes.

## Model

| member | source | states |
|---|---|---|
| TicTacToe.Initial | tictactoe.py:11-17 | the starting board has nine Empty cells and no X or O |
| TicTacToe.IsInitialIff | tictactoe.py:25-26 | the cell-by-cell test for the starting board holds exactly when the board equals `initial_state()` |
| TicTacToe.Turn | tictactoe.py:20-42 | a turn is always a mark, X or O, and the only error is InvalidState; `TurnByCounts` states which case holds for which counts |
| TicTacToe.TurnByCounts | tictactoe.py:20-42 | the turn is X exactly when the X and O counts are equal, O exactly when X has more, and the error exactly when O has more; a turn exists exactly when count(O) <= count(X) |
| TicTacToe.InitialCaseRedundant | tictactoe.py:24-42 | the special case for the starting board gives the same answer as the counting rule alone |
| TicTacToe.Place | tictactoe.py:61-83 | placing the mover's mark on a free cell yields a board on which a turn exists again, with exactly one Empty cell fewer |
| TicTacToe.Apply | tictactoe.py:61-83 | a successful move yields a board on which a turn exists, with one Empty cell fewer; a failure is IllegalMove exactly when the turn exists, and otherwise the turn's error; `ApplySpec` states the full case split and the cells of the new board |
| TicTacToe.ApplySpec | tictactoe.py:61-83 | `result` fails with InvalidState exactly when O has more marks, and with IllegalMove exactly when the turn exists and the target is occupied; otherwise the new board holds the mover's mark at the target and equals the old board at every other cell |
| TicTacToe.PlaceAlternates | tictactoe.py:61-83 | on a board where X leads O by zero or one mark, a move keeps that relation, passes the turn to the other mark and removes one Empty cell |
| TicTacToe.EmptyCells | tictactoe.py:45-58 | every listed move addresses an Empty cell |
| TicTacToe.EmptyBefore | tictactoe.py:53-56 | scanning the first k cells in row-major order collects at most k moves; `EmptyBeforeSpec` states which ones |
| TicTacToe.EmptyBeforeMembers | tictactoe.py:53-56 | after the loops have scanned the first k cells, a move is in the list exactly when it addresses a free cell among them |
| TicTacToe.EmptyBeforeLength | tictactoe.py:53-56 | after the loops have scanned the first k cells, the list has one move per Empty cell among them |
| TicTacToe.EmptyBeforeSpec | tictactoe.py:53-56 | after the loops have scanned the first k cells in row-major order, the list holds exactly the free cells among them, in strictly increasing row-major position, one per Empty cell |
| TicTacToe.EmptyCellsSpec | tictactoe.py:45-58 | `actions` lists exactly the Empty cells, in strictly increasing row-major order, as many as there are Empty cells, and is empty exactly when the board is full |
| TicTacToe.EmptyCellsDistinct | tictactoe.py:45-58 | no move occurs twice in `actions` |
| TicTacToe.WinnerFrom | tictactoe.py:90-117 | scanning the lines in order and testing X before O never reports Empty as a winner; `WinnerFromSpec` states which mark it reports |
| TicTacToe.Winner | tictactoe.py:86-117 | `winner` never reports Empty; the eight lines and the order it tests them in are the constant `Lines`; `WinnerSpec` states which mark it reports |
| TicTacToe.WinnerFromSpec | tictactoe.py:90-117 | scanning the lines from position k, when no earlier line is complete, finds a mark only if that mark completes a later line with no complete line before it, and finds nothing exactly when no line from k on is complete |
| TicTacToe.WinnerSpec | tictactoe.py:86-117 | `winner` is X or O exactly when that mark completes a line and no line checked earlier (diagonal, anti-diagonal, rows, columns) is complete; it is None exactly when no line is complete, and never Empty |
| TicTacToe.IsTerminal | tictactoe.py:120-135 | the game is over when there is a winner or no Empty cell; no contract of its own, `TerminalSpec` states its meaning |
| TicTacToe.TerminalSpec | tictactoe.py:120-135 | the game is over exactly when there is a winner or no Empty cell, that is, when there is a winner or no legal move; a board that is not over has a legal move |
| TicTacToe.Utility | tictactoe.py:138-147 | the utility lies in -1..1 and is 1, -1 or 0 exactly when the winner is X, O or nobody |
| Search.MinOfSpec | tictactoe.py:199-205 | the running minimum from the +infinity sentinel is the sentinel on no values, a lower bound of every value, and for values in -1..1 it lies in -1..1 and is one of them |
| Search.MaxOfSpec | tictactoe.py:214-220 | the running maximum from the -infinity sentinel is the sentinel on no values, an upper bound of every value, and for values in -1..1 it lies in -1..1 and is one of them |
| Search.FoldStep | tictactoe.py:199-218 | one more loop step folds the next value into the running minimum or maximum with one `min` or `max` |
| Search.MinOf | tictactoe.py:199-203 | the running minimum from the +infinity sentinel never exceeds the sentinel 2; `MinOfSpec` states that it is the least value |
| Search.MaxOf | tictactoe.py:214-218 | the running maximum from the -infinity sentinel is never below the sentinel -2; `MaxOfSpec` states that it is the greatest value |
| Search.ChildMaxVals | tictactoe.py:199-203 | the `Max_Value`s of the boards the moves lead to, the values `Min_Value` folds, are one per move and each in -1..1 |
| Search.ChildMinVals | tictactoe.py:214-218 | the `Min_Value`s of the boards the moves lead to, the values `Max_Value` folds, are one per move and each in -1..1 |
| Search.MinVal | tictactoe.py:193-205 | the value of a board for the minimizing side lies in -1..1 |
| Search.MaxVal | tictactoe.py:208-220 | the value of a board for the maximizing side lies in -1..1 |
| Search.MinValSpec | tictactoe.py:193-205 | on a terminal board `Min_Value` is the utility; otherwise it is at most the `Max_Value` after every legal move and equals it after some legal move |
| Search.MaxValSpec | tictactoe.py:208-220 | on a terminal board `Max_Value` is the utility; otherwise it is at least the `Min_Value` after every legal move and equals it after some legal move |
| Search.Scores | tictactoe.py:166-188 | the scores `minimax` compares are one per legal move, each in -1..1 |
| Search.FirstBestIn | tictactoe.py:170-188 | what the selection loop keeps: position k is the first best score, strictly better than every earlier one and not beaten by any; no contract of its own, `FirstBestStep`, `LaterNotFirstBest` and `FirstBestUnique` state its properties |
| Search.FirstBest | tictactoe.py:166-188 | legal move k is the first best one for the side to move; no contract of its own, `FirstBestIsExtreme` and `FirstBestValue` state what it selects |
| Search.FirstBestStep | tictactoe.py:170-188 | one iteration of the selection loop: a strictly better value makes the current move the first best one, any other value leaves the first best move where it was |
| Search.LaterNotFirstBest | tictactoe.py:170-188 | no move after the first best one is first best, because the comparison is strict |
| Search.FirstBestUnique | tictactoe.py:166-190 | at most one move is the first best one, so the selection is deterministic |
| Search.FirstBestIsExtreme | tictactoe.py:166-190 | the first best score is the maximum of the scores for X and the minimum for O |
| Search.FirstBestValue | tictactoe.py:166-190 | on a board that is not over, the first best move leads to a board whose value equals the position's own minimax value: `Max_Value` of the board when X moves, `Min_Value` when O moves |
| Engine.Player | tictactoe.py:20-42 | the counting loop returns the turn, or InvalidState when O has more marks |
| Engine.Actions | tictactoe.py:45-58 | the nested loops return exactly the legal-move list `EmptyCells` |
| Engine.Result | tictactoe.py:61-83 | copy-then-overwrite returns exactly `Apply`: the turn's error, IllegalMove on an occupied cell, or the board with the mover's mark placed |
| Engine.Terminal | tictactoe.py:120-135 | the winner test followed by the scan with early return answers exactly whether the game is over |
| Engine.MinValue | tictactoe.py:193-205 | the loop over the legal moves computes `MinVal` |
| Engine.MaxValue | tictactoe.py:208-220 | the loop over the legal moves computes `MaxVal` |
| Engine.Minimax | tictactoe.py:150-190 | on the starting board it returns the opening move it is given; on a finished board nothing; on a board with more O than X the error; otherwise the first best legal move for the side to move |
| Scenarios.EmptyBoardTurn | tictactoe.py:20-26 | X moves first on the starting board |
| Scenarios.EmptyBoardNotOver | tictactoe.py:120-135 | the starting board has no winner and is not over |
| Scenarios.EmptyBoardMoves | tictactoe.py:45-58 | all nine cells are legal on the starting board, listed from (0, 0) to (2, 2) |
| Scenarios.TopRowWon | tictactoe.py:86-147 | a top row of X wins for X; the board is over, has utility 1, and both value functions give 1 |
| Scenarios.DrawnOver | tictactoe.py:86-147 | a full board without a complete line has no winner, is over and has utility 0 |
| Scenarios.XToWinOpen | tictactoe.py:20-42 | with three X and three O, it is X's turn and the game is not over |
| Scenarios.XToWinMoves | tictactoe.py:45-58 | the legal moves of that position are the right-hand column, top to bottom |
| Scenarios.XToWinWins | tictactoe.py:61-117 | playing the top-right cell completes the top row for X |
| Scenarios.XToWinSearch | tictactoe.py:166-176 | the winning cell is the first best move and the only one, and the position is worth 1 to X |
| Scenarios.SearchTakesWin | tictactoe.py:150-190 | the search method returns the winning cell on that position, whatever opening move it is given |

## Left out

- The random opening move (`random.randrange`, tictactoe.py:156-157) is the parameter `opening` of `Engine.Minimax`. The model says only that the given cell is returned on the starting board.
- `math.inf` is not modelled as a floating-point value. The sentinels 2 and -2 stand in for it, since every value compared with them lies in -1..1.
- `copy.deepcopy` is not modelled: boards are immutable values, so the copy is value assignment and the caller's board cannot change.
- Indices outside 0..2 are not modelled. `Move` fixes both coordinates to 0..2, so Python's `IndexError` and its negative-index wrap-around do not arise.
- Search.MinVal: requires a board on which a turn exists (no more O than X). On a terminal board with more O than X, the source evaluates the utility. The model does not cover such boards, which legal play never reaches from the starting board.
- Search.MaxVal: the same requirement and the same uncovered boards as `MinVal`.
- Engine.MinValue: the same requirement as `MinVal`. On a non-terminal board with more O than X, the source raises from `result`; the method does not cover that case.
- Engine.MaxValue: the same requirement as `MaxVal`, for the same reason.
- The claim that optimal play from the empty board always ends in a draw is not stated. It needs the whole game tree to be evaluated inside the verifier.
- Repeated calls of a pure function on the same board are modelled as one call, since each repeat returns the same value:
  - `player(board)` in `minimax` (tictactoe.py:167 and 179);
  - `player(board)` in `result` (tictactoe.py:68 and 74);
  - `winner(board)` in `terminal` (tictactoe.py:125, twice on the line);
  - `winner(board)` in `utility` (tictactoe.py:142 and 144).
- The "player corruption" error of `result` (tictactoe.py:80-81) is not modelled, because it cannot be raised: `player` either returns X or O or raises its own `ValueError` (tictactoe.py:41-42). That error propagates out of the first `player(board)` call in `result` (tictactoe.py:68), and the `Err` branch of `Engine.Result` models it, not line 81.
- The user interface and the game loop are not part of this model.
