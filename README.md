# Tic-tac-toe engine, modelled and verified in Dafny

This project models the tic-tac-toe engine of `tictactoe.py`. It covers the
3x3 board, the turn rule, the legal moves, move application, win and end
detection, the utility function, and the two minimax searches
(`minimax_value` and `minimax`).

The project has three files:

- `wrappers.dfy` defines `Option`, which stands for Python's `None`, and
  `Outcome`, which is a value or the error an operation raises.
- `board.dfy` (module `Board`) holds the board and the rules. A board is a
  value: a sequence of three rows of three cells, where a cell is
  `Some(X)`, `Some(O)` or `None` (`EMPTY`).
  - `player`, `winner`, `terminal` and `utility` are pure functions.
  - `actions` is a method with the source's two nested loops. It is proved
    equal to the function `EmptyCells`.
  - `result` is a method that writes one cell of a copy of the board. It is
    proved equal to the function `Play`, or to the error `CellTaken`.
- `minimax.dfy` (module `Minimax`) holds the search.
  - Scores are extended integers (`NegInf | Fin(n) | PosInf`) wrapped in
    `Option`, because a score can be absent.
  - `ValueOf(leaf, b)` is the specification of `minimax_value`. It is
    parameterised by how terminal positions are scored.
  - `Scan` is the loop that keeps the best present score. `Children` holds
    the scores of the positions after each move.
  - The methods `MinimaxValue` and `Minimax` keep the source's loops. They
    are proved equal to `ValueOf(Utility, b)`, so they use `utility` as
    written.
  - The search terminates because every recursive call is on a board with
    one fewer empty cell: `Play` ensures this, and `Count(b, None)` is the
    `decreases` measure.

`utility` as written returns nothing for a board that has a winner (see
Findings). The model reproduces this: `Utility` returns `None` there, and
the searches skip absent scores as the source does. `IntendedUtility` is
the scoring its documentation promises. `ValueOf(IntendedUtility, b)` is
the corrected search, and its properties are proved next to those of the
search as written.

## Model

| member | source | states |
|---|---|---|
| Board.InitialState | tictactoe.py:12-18 | Every cell of the starting board is empty, it holds nine empty cells and no marks, and X moves first. |
| Board.Player | tictactoe.py:21-31 | O is to move exactly when X has more marks than O; X is to move exactly when X has no more marks than O. |
| Board.PlayAlternates | tictactoe.py:21-31 | From a position reachable by alternating play, a move keeps it reachable and passes the turn to the other player. |
| Board.EmptyCellsSpec | tictactoe.py:34-43 | The legal moves are exactly the empty cells, each once, in strictly increasing row-major order, and there are as many as there are empty cells. |
| Board.EmptyCells | tictactoe.py:34-43 | Every listed move is on an empty cell. |
| Board.Actions | tictactoe.py:34-43 | The nested loops over rows and columns return exactly `EmptyCells(b)`. |
| Board.Play | tictactoe.py:53-63 | After a move, the chosen cell holds the mover's mark. There is one fewer empty cell, one more mark of the mover, and the same number of the opponent's marks. |
| Board.PlayFrame | tictactoe.py:57-61 | A move changes no cell other than the chosen one. |
| Board.Result | tictactoe.py:46-63 | No action returns the board unchanged. An occupied cell gives the error `CellTaken`. An empty cell gives `Play(b, a)`. |
| Board.OwnerSpec | tictactoe.py:70-83 | A line's owner is `m` exactly when `m` fills all three of its cells. |
| Board.Winner | tictactoe.py:66-85 | `winner`: the first owned line in the order rows, columns, diagonals. What it returns is stated by `WinnerSpec`. |
| Board.WinnerFromSpec | tictactoe.py:66-85 | From line `k` on, the result is `None` exactly when no line is filled. Otherwise it is the mark of the first filled line. |
| Board.WinnerSpec | tictactoe.py:66-85 | `winner` is `None` exactly when no row, column or diagonal is filled by one mark. Otherwise it is the mark of the first filled line, checking rows, then columns, then diagonals. |
| Board.Terminal | tictactoe.py:88-95 | `terminal`: there is a winner, or every cell is taken. Its meaning in counts and legal moves is stated by `TerminalSpec`. |
| Board.TerminalSpec | tictactoe.py:88-95 | The game is over exactly when there is a winner or no cell is empty. A game that is not over has a legal move. |
| Board.Utility | tictactoe.py:98-109 | As written: 0 when there is no winner, and no value at all when there is one. |
| Board.IntendedUtility | tictactoe.py:98-101 | As documented: 1 exactly when X has won, -1 exactly when O has won, and 0 exactly when nobody has. |
| Minimax.Start | tictactoe.py:143 | The starting value of a search is worse for the mover than any value, and any finite score beats it. |
| Minimax.ValueOf | tictactoe.py:111-132 | `minimax_value` with the leaf scoring as a parameter: the utility and no move on a terminal position, otherwise the scan over the legal moves. Its properties are stated by `ValueOfMove` and `ValueOfBest`, and the methods are proved equal to it. |
| Minimax.Scan | tictactoe.py:118-122 | The update loops at lines 118-122, 127-131 and 145-151: a move replaces the running best only when its score is present and strictly better for the mover. Its properties are stated by `ScanBest`. |
| Minimax.ScanBest | tictactoe.py:118-122 | The loop ends with a value no worse than its starting value and than every present score. Its move is either the starting one, or the first visited move whose score is the final value, which is then strictly better than the starting value, so a tie never replaces an earlier move. |
| Minimax.ValueOfMove | tictactoe.py:111-132 | On a position that is not over, the score is present. The move returned is a legal move whose position has that score, or there is no move and the score is still the starting infinity. |
| Minimax.ValueOfBest | tictactoe.py:111-132 | On a position that is not over, no legal move leads to a present score strictly better for the mover than the returned score. |
| Minimax.MinimaxValue | tictactoe.py:111-132 | Returns `ValueOf(Utility, b)`. On a terminal position it returns the utility and no move. |
| Minimax.SearchChild | tictactoe.py:119 | Searching the position after a legal move gives that move's score in the specification, `ChildScore(Utility, b, a)`. |
| Minimax.Minimax | tictactoe.py:135-153 | Returns the move `minimax_value` returns. That is no move on a terminal position, and otherwise no move or a legal move. |
| Minimax.AsWrittenScores | tictactoe.py:98-132 | With `utility` as written, every score is absent, -infinity, 0 or +infinity, so a search never sees a score of 1 or -1. |
| Minimax.AsWrittenMissesWin | tictactoe.py:103-123 | On `OneMoveFromWin`, the top right wins for X, but the search as written returns -infinity and no move. |
| Minimax.IntendedScores | tictactoe.py:98-132 | With the intended `utility`, every score is present and is -1, 0 or 1, and every position that is not over gets a move. |
| Minimax.IntendedTakesWin | tictactoe.py:111-123 | With the intended `utility`, the search on `OneMoveFromWin` returns score 1 and the winning move. |

## Left out

- `main.py` is not part of this model. Its fuzzy inference and genetic search run inside scikit-fuzzy and DEAP, whose code is not in the repository. It is also floating point and random. Its GUI sits inside a string literal.
- Board.Result: the action `(None, None)` is not modelled. Moves are pairs of coordinates 0..2, so only a missing action (`None`) is the "no move" case.
- Board.Result: the deep copy is value semantics on an immutable board, so no aliasing between the old and new board is modelled.
- Coordinates are 0..2. Python's negative indices, out-of-range `IndexError` and non-3x3 boards are not modelled.
- Marks other than `X`, `O` and `EMPTY` cannot appear on a board.
- Python's `float('inf')` sentinels are modelled as `NegInf` and `PosInf`. Every score is an integer or one of the two infinities, which `ExtInt` represents exactly, so no floating point is involved.
- Minimax.MinimaxValue and Minimax.Minimax use `utility` as written, so they reproduce its defect. The corrected search exists only as `ValueOf(IntendedUtility, b)`, a function.

## Findings

| source | as written | input that shows it | evidently intended | confidence | as-written member | corrected member |
|---|---|---|---|---|---|---|
| tictactoe.py:103 | `utility` returns a score only under the guard `not winner(board)`, so a board with a winner gets no score, and the branches for 1 and -1 can never be reached | `OneMoveFromWin`: X X _ / O O X / O X O with X to move. The top right wins, but `minimax_value` returns (-infinity, no move) and `minimax` returns no move | 1 when X has won and -1 when O has won, as the documentation says, so the search takes the winning move | high; not executed | Minimax.AsWrittenMissesWin | Minimax.IntendedTakesWin |
