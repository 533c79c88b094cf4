# Connect Four game logic, in Dafny

This project models the rules inside the `Connect4` class of a browser
Connect Four game (`public/js/game.js`). Play happens on a fixed grid of 6 rows
by 7 columns. Each cell is `EMPTY`, `PLAYER` (the human) or `AI` (the computer).
Row 0 is the top row, and a dropped piece settles in the empty cell with the
highest row index of its column. The model covers:

- **drop resolution** (`getLowestEmptyRow`): the row a piece lands in, or -1;
- **legal moves** (`getValidMoves`): the columns that can still take a piece;
- **draw test** (`isBoardFull`);
- **win detection** (`checkWin`): from the cell just played, walk both ways
  along each of four line directions while the cells match. Report the
  collected cells as soon as one direction pair collects four or more;
- **move choice** (`findBestMove`): the smallest column where the computer
  wins at once; else the smallest column where the human would win at once,
  which the computer then blocks; else a random legal column. Each candidate
  is tried by writing the piece into the board and clearing it again;
- **the turn step** (`makeMove`, the click guard, `makeAIMove`): place the
  piece, end the game on a win or a full board, otherwise pass the turn.

Modules, one per part of the class:

- `Wrappers` — `Option`, for results that may be `null`.
- `Board` — cells, the board as `seq<seq<Cell>>`, drop resolution, legal
  moves, the full-board test and the stacking invariant.
- `Win` — `checkWin`, plus an independent characterisation: a run of at least
  four contiguous same-piece cells through the played cell.
- `Strategy` — `findBestMove`.
- `Game` — the state `(board, currentPlayer, gameOver)` and the turn step,
  plus a turn-balance invariant.

The model covers only the JavaScript class in `public/js/game.js`. The
repository also holds a separate Python version of the game,
`connect 4.py`, with a different engine:
- a depth-limited `minimax` search with alpha-beta pruning (lines 126-168);
- a window-scoring heuristic, `score_position` (line 99);
- a win scan over the whole board, `winning_move` (lines 63-84), which
  returns exactly four cells;
- a full-column test, `is_valid_location` (lines 52-54), which looks only at
  the top cell.

The JavaScript class has none of these, so none are modelled. Its `checkWin`
looks only at lines through the played cell and returns the unbroken run of
matching cells through that cell. It reports the run for the first direction
pair that reaches four: the played cell first, then the cells walked
forwards, then the cells walked backwards. That can be more than four cells.
Its `getLowestEmptyRow` scans the whole column.
`Board.OpenIffTopEmpty` shows that the top-cell test gives the same answer on
boards where pieces are stacked from the bottom.

Nondeterminism and side effects become parameters or are dropped.
`Math.random()` becomes a parameter `rand` with `0 <= rand < 1`. The method
then picks the entry at `Floor(rand * n)` of the legal-move list. The class
changes `this.board` in place. The model passes boards as values instead:
`FindBestMove` returns the board left after its trial writes, and its contract
says that board equals the input.

## Model

| member | source | states |
|---|---|---|
| `Board.LowestEmptyRow` | public/js/game.js:133-140 | -1 exactly when the column has no empty cell, which includes a column index outside the grid; otherwise a row in [0, 6) that is empty, with every row below it occupied |
| `Board.ValidMoves` | public/js/game.js:128-131 | strictly ascending; every entry in [0, 7); a column is listed exactly when its lowest empty row is not -1 |
| `Board.IsBoardFull` | public/js/game.js:187-189 | true exactly when no cell of the board is EMPTY |
| `Board.FullIffNoValidMoves` | public/js/game.js:187-189 | the board is full exactly when the list of legal moves is empty |
| `Board.OpenIffTopEmpty` | public/js/game.js:133-140 | on a board stacked from the bottom, a column can take a piece exactly when its top cell is empty |
| `Board.WriteThenClear` | public/js/game.js:106-112 | writing a piece into an empty cell and clearing it again gives back the original board |
| `Board.DropKeepsStacked` | public/js/game.js:68-71 | writing a piece into the lowest empty row of a column keeps every column free of empty cells below occupied ones |
| `Board.EmptyBoardStacked` | public/js/game.js:9 | the empty starting board is stacked |
| `Win.Ray` | public/js/game.js:156-169 | the inner walk: its k-th cell is k steps from the start, each one on the board and matching; the next step is off the board or does not match |
| `Win.CheckWin` | public/js/game.js:142-176 | a reported win has at least four cells; the played cell comes first; every cell is on the board and holds the played piece; which cells they are is stated by `Win.CheckWinShape` |
| `Win.LineIffRun` | public/js/game.js:153-172 | one direction pair collects four or more cells exactly when a run of at least four contiguous matching cells passes through the played cell in that direction |
| `Win.CheckWinIffRun` | public/js/game.js:150-175 | `checkWin` reports a win exactly when, in some direction, a run of at least four contiguous matching on-board cells passes through the played cell |
| `Win.CheckWinShape` | public/js/game.js:152-173 | a reported win comes from the first direction pair that carries a run of four or more through the played cell. No earlier pair carries one. The cells are that pair's maximal run of the played piece, in walk order: the played cell, then the forward cells nearest first, then the backward cells nearest first. The cell past each end does not match, and no cell repeats, so the number of cells is the length of the run |
| `Win.BlockedRowWin` | public/js/game.js:156-172 | example: in a bottom row human, human, computer, then four human pieces, a piece played at column 3 reports columns 3 to 6 only; the walk stops at the computer piece, so the matching cells at columns 0 and 1 are left out |
| `Win.BottomRowWin` | public/js/game.js:152-172 | example: with three human pieces in the bottom row, a fourth at column 3 is reported as columns 3, 2, 1, 0 in walk order |
| `Strategy.WinsByDroppingIffRun` | public/js/game.js:106-111 | a trial drop counts as a win exactly when the column is open and the dropped piece then lies on a run of four or more |
| `Strategy.RandomIndex` | public/js/game.js:125 | the index drawn for the random fallback lies in [0, n) |
| `Strategy.TryDrop` | public/js/game.js:106-112 | one trial reports a win exactly when dropping the piece into the column completes a line, and the board is restored |
| `Strategy.FirstWinningIn` | public/js/game.js:105-113 | over an ascending list of open columns: -1 exactly when no listed column wins for the piece; otherwise a listed winning column with no smaller listed column winning; the board is unchanged afterwards |
| `Strategy.FindBestMove` | public/js/game.js:100-126 | -1 exactly when no move is legal, otherwise a legal column; the smallest winning column when one exists; else the smallest column that blocks an immediate human win; else the random pick; the board is unchanged |
| `Game.NewGame` | public/js/game.js:8-11 | a new or reset game has an empty board, the human to move and the game running |
| `Game.MakeMove` | public/js/game.js:67-91 | nothing changes exactly when the column has no empty cell; otherwise exactly one cell changes: the lowest empty cell of the column, which now holds the side to move; the turn passes only when the move neither wins nor fills the board; the game ends on a win or a draw |
| `Game.MakeMoveOutcome` | public/js/game.js:74-84 | a move is a win exactly when a run of four or more through the placed cell results; the reported cells start at that cell and hold the mover's piece; it is a draw exactly when there is no such run and no cell is left empty |
| `Game.MakeMoveKeepsStacked` | public/js/game.js:68-71 | every move keeps the board stacked from the bottom |
| `Game.PlayerClick` | public/js/game.js:38-44 | a click is ignored exactly when the game is over or the computer is to move. A click that is taken is a move in the clicked column. If the column has room, that move puts a human piece into its lowest empty cell and changes no other cell; otherwise nothing changes |
| `Game.ClickKeepsConsistent` | public/js/game.js:38-44 | a click taken by the guard keeps the turn-balance invariant, because the guard only lets moves through while the game runs |
| `Game.AiTurn` | public/js/game.js:93-98 | no move happens exactly when no column is open; otherwise the move is made in a legal column and is never the full-column no-op; if the computer can win at once, its turn ends in a win |
| `Game.WriteCounts` | public/js/game.js:71 | placing a piece into an empty cell adds one to that piece's count and leaves the other side's count alone |
| `Game.NewGameConsistent` | public/js/game.js:9-11 | the new game satisfies the turn-balance invariant |
| `Game.MakeMoveKeepsConsistent` | public/js/game.js:67-86 | any move made in a running game keeps two facts: the board stays stacked, and the human has one piece more than the computer exactly when the computer is to move in a running game or the human is to move in a finished one |

## Left out

- Rendering and event wiring: `setupBoard`, registering the click and reset
  listeners, `highlightWinningCells`, the status text that `endGame` writes,
  the DOM part of `resetGame`, and the footer. These only touch the page. The
  guard in the click handler is modelled as `Game.PlayerClick`. The state part
  of `resetGame` is the same as `Game.NewGame`.
- The `updateCell` animation promise and the 500 ms `setTimeout` before the
  computer moves. These are asynchronous timing. Each step is modelled as if
  it runs to completion, so the model does not cover interleavings. Two such
  cases are left out: a second click while the drop animation is still
  running, and a scheduled computer move that fires after a reset.
- `Math.random()`: becomes the parameter `rand`. The model does not say how
  the random picks are distributed.
- `Strategy.FindBestMove`: the board that JavaScript mutates in place is
  modelled as a local copy. The copy is handed back and proved equal to the
  input. No state is shared with other code.
