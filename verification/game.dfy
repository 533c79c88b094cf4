/** The turn logic of the game object: placing a piece for the side to move,
    ending the game on a win or a full board, and otherwise passing the turn.
    Rendering, animation and timers are not part of this module. */
module Game {
  import opened Wrappers
  import opened Board
  import opened Win
  import opened Strategy

  /** The fields of the game object the rules read and write. */
  datatype Game = Game(board: Board, current: Piece, gameOver: bool)

  /** What one call of the move routine did. */
  datatype Outcome =
    | ColumnFull            // the column had no empty cell: nothing changed
    | Won(cells: seq<Pos>)  // the placed piece completed a line; the game ends
    | Draw                  // the board filled up without a win; the game ends
    | Continue              // the turn passes to the other side

  datatype Step = Step(game: Game, outcome: Outcome)

  /** A new game (also the state a reset returns to): an empty board, the
      human player to move, the game running. */
  function NewGame(): (g: Game)
    ensures forall r, c :: InBounds(r, c) ==> g.board[r][c] == Empty
    ensures g.current == Player && !g.gameOver
  {
    Game(EmptyBoard(), Player, false)
  }

  /** `makeMove(col)`: drop the current side's piece into `col`; a full
      column changes nothing. After the drop the game ends on a win through
      the placed cell or on a full board; otherwise the turn passes on. */
  function MakeMove(g: Game, col: int): (s: Step)
    ensures s.outcome == ColumnFull <==> forall row :: 0 <= row < Rows ==> !IsEmptyAt(g.board, row, col)
    ensures s.outcome == ColumnFull ==> s.game == g
    ensures s.outcome != ColumnFull ==>
              var row := LowestEmptyRow(g.board, col);
              0 <= row < Rows && g.board[row][col] == Empty &&
              OnlyCellChanged(g.board, s.game.board, row, col, g.current)
    ensures s.game.current == if s.outcome == Continue then Other(g.current) else g.current
    ensures s.game.gameOver == (g.gameOver || s.outcome.Won? || s.outcome == Draw)
  {
    var row := LowestEmptyRow(g.board, col);
    if row == -1 then Step(g, ColumnFull)
    else
      var board := Write(g.board, row, col, g.current);
      match CheckWin(board, Pos(row, col))
      case Some(cells) => Step(Game(board, g.current, true), Won(cells))
      case None =>
        if IsBoardFull(board) then Step(Game(board, g.current, true), Draw)
        else Step(Game(board, Other(g.current), g.gameOver), Continue)
  }

  /** A move reports a win exactly when, after the drop, a run of four or
      more of the mover's pieces passes through the placed cell; the reported
      cells start at that cell and hold the mover's piece. It reports a draw
      exactly when there is no such run and no empty cell is left. */
  lemma MakeMoveOutcome(g: Game, col: int)
    requires LowestEmptyRow(g.board, col) != -1
    ensures var row := LowestEmptyRow(g.board, col);
            var s := MakeMove(g, col);
            && (s.outcome.Won? <==> WinThrough(s.game.board, Pos(row, col)))
            && (s.outcome.Won? ==> |s.outcome.cells| >= 4 && s.outcome.cells[0] == Pos(row, col))
            && (s.outcome.Won? ==> forall q :: q in s.outcome.cells ==> Holds(s.game.board, q, g.current))
            && (s.outcome == Draw <==>
                  !WinThrough(s.game.board, Pos(row, col)) &&
                  forall r, c :: InBounds(r, c) ==> s.game.board[r][c] != Empty)
  {
    var row := LowestEmptyRow(g.board, col);
    CheckWinIffRun(Write(g.board, row, col, g.current), Pos(row, col));
  }

  /** A move keeps pieces stacked from the bottom of every column. */
  lemma MakeMoveKeepsStacked(g: Game, col: int)
    requires Stacked(g.board)
    ensures Stacked(MakeMove(g, col).game.board)
  {
    if LowestEmptyRow(g.board, col) != -1 {
      DropKeepsStacked(g.board, col, g.current);
    }
  }

  /** The click handler: ignored once the game is over or while it is the
      computer's turn; otherwise a move in the clicked column. So a click
      that is taken and finds room places a human piece, in the lowest empty
      cell of the column, and changes nothing else on the board. */
  function PlayerClick(g: Game, col: int): (s: Option<Step>)
    ensures s.None? <==> g.gameOver || g.current == Ai
    ensures s.Some? ==> s.value == MakeMove(g, col)
    ensures s.Some? && s.value.outcome == ColumnFull ==> s.value.game == g
    ensures s.Some? && s.value.outcome != ColumnFull ==>
              var row := LowestEmptyRow(g.board, col);
              0 <= row < Rows && g.board[row][col] == Empty &&
              OnlyCellChanged(g.board, s.value.game.board, row, col, Player)
  {
    if g.gameOver || g.current != Player then None else Some(MakeMove(g, col))
  }

  /** A click taken by the guard keeps the invariant: the guard only lets a
      move through while the game is running. */
  lemma ClickKeepsConsistent(g: Game, col: int)
    requires Consistent(g)
    ensures PlayerClick(g, col).Some? ==> Consistent(PlayerClick(g, col).value.game)
  {
    if !g.gameOver {
      MakeMoveKeepsConsistent(g, col);
    }
  }

  /** The computer's turn: choose a column with `FindBestMove` and, unless
      none is open, make the move there. */
  method AiTurn(g: Game, rand: real) returns (col: int, s: Option<Step>)
    requires 0.0 <= rand < 1.0
    ensures col == -1 <==> ValidMoves(g.board) == []
    ensures s.None? <==> col == -1
    ensures s.Some? ==> col in ValidMoves(g.board) && s.value == MakeMove(g, col)
    ensures s.Some? ==> s.value.outcome != ColumnFull
    ensures g.current == Ai && CanWinNow(g.board, Ai) ==> s.Some? && s.value.outcome.Won?
  {
    var after;
    col, after := FindBestMove(g.board, rand);
    if col == -1 {
      return col, None;
    }
    s := Some(MakeMove(g, col));
  }

  // ---------------------------------------------------------------------
  // Turn balance: the sides alternate, so piece counts never drift apart.

  function Indicator(c: bool): nat {
    if c then 1 else 0
  }

  /** The number of cells of `row` holding `v`. */
  function CountIn(row: seq<Cell>, v: Cell): nat {
    if |row| == 0 then 0 else Indicator(row[0] == v) + CountIn(row[1..], v)
  }

  /** The number of cells of `rows` holding `v`. */
  function CountRows(rows: seq<seq<Cell>>, v: Cell): nat {
    if |rows| == 0 then 0 else CountIn(rows[0], v) + CountRows(rows[1..], v)
  }

  lemma {:induction false} CountInUpdate(s: seq<Cell>, i: int, x: Cell, v: Cell)
    requires 0 <= i < |s|
    ensures CountIn(s[i := x], v) == CountIn(s, v) - Indicator(s[i] == v) + Indicator(x == v)
  {
    if i == 0 {
      assert s[i := x][1..] == s[1..];
    } else {
      CountInUpdate(s[1..], i - 1, x, v);
      assert s[i := x][1..] == s[1..][i - 1 := x];
    }
  }

  lemma {:induction false} CountRowsUpdate(rows: seq<seq<Cell>>, i: int, row: seq<Cell>, v: Cell)
    requires 0 <= i < |rows|
    ensures CountRows(rows[i := row], v) == CountRows(rows, v) - CountIn(rows[i], v) + CountIn(row, v)
  {
    if i == 0 {
      assert rows[i := row][1..] == rows[1..];
    } else {
      CountRowsUpdate(rows[1..], i - 1, row, v);
      assert rows[i := row][1..] == rows[1..][i - 1 := row];
    }
  }

  lemma {:induction false} CountInNone(s: seq<Cell>, v: Cell)
    requires forall i :: 0 <= i < |s| ==> s[i] != v
    ensures CountIn(s, v) == 0
  {
    if |s| > 0 {
      CountInNone(s[1..], v);
    }
  }

  lemma {:induction false} CountRowsNone(rows: seq<seq<Cell>>, v: Cell)
    requires forall r, c :: 0 <= r < |rows| && 0 <= c < |rows[r]| ==> rows[r][c] != v
    ensures CountRows(rows, v) == 0
  {
    if |rows| > 0 {
      CountInNone(rows[0], v);
      CountRowsNone(rows[1..], v);
    }
  }

  /** Writing `v` into an empty cell adds one `v` and leaves the count of
      every other piece kind alone. */
  lemma WriteCounts(b: Board, row: int, col: int, v: Piece, w: Piece)
    requires IsEmptyAt(b, row, col)
    ensures CountRows(Write(b, row, col, v), w) == CountRows(b, w) + Indicator(v == w)
  {
    CountInUpdate(b[row], col, v, w);
    CountRowsUpdate(b, row, b[row][col := v], w);
  }

  /** The invariant the turn logic keeps from a new game on: pieces are
      stacked, and the human player has placed one piece more than the
      computer exactly when the side to move is the computer in a running
      game, or the human in a finished one (the winner keeps the turn). */
  ghost predicate Consistent(g: Game) {
    && Stacked(g.board)
    && CountRows(g.board, Player) == CountRows(g.board, Ai) + Indicator((g.current == Ai) != g.gameOver)
  }

  lemma NewGameConsistent()
    ensures Consistent(NewGame())
  {
    var b := NewGame().board;
    CountRowsNone(b, Player);
    CountRowsNone(b, Ai);
    EmptyBoardStacked();
  }

  /** A move made in a running game keeps the invariant. */
  lemma MakeMoveKeepsConsistent(g: Game, col: int)
    requires Consistent(g) && !g.gameOver
    ensures Consistent(MakeMove(g, col).game)
  {
    MakeMoveKeepsStacked(g, col);
    var row := LowestEmptyRow(g.board, col);
    if row != -1 {
      WriteCounts(g.board, row, col, g.current, Player);
      WriteCounts(g.board, row, col, g.current, Ai);
    }
  }
}
