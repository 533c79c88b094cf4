/** The grid of the Connect Four game: six rows of seven three-valued cells.
    Row 0 is the top row; a dropped piece settles in the empty cell with the
    highest row index of its column. */
module Board {

  datatype Cell = Empty | Player | Ai

  /** A cell value a move can place: one of the two sides. */
  type Piece = c: Cell | c != Empty witness Player

  const Rows: int := 6
  const Cols: int := 7

  type Board = b: seq<seq<Cell>> | |b| == Rows && forall r :: 0 <= r < |b| ==> |b[r]| == Cols
    witness seq(Rows, _ => seq(Cols, _ => Empty))

  predicate InBounds(row: int, col: int) {
    0 <= row < Rows && 0 <= col < Cols
  }

  /** Cell (row, col) exists and holds no piece. Outside the grid this is
      false, as reading a missing array slot never equals EMPTY. */
  predicate IsEmptyAt(b: Board, row: int, col: int) {
    InBounds(row, col) && b[row][col] == Empty
  }

  /** The other side: whose turn follows `p`. */
  function Other(p: Piece): (q: Piece)
    ensures q != p
  {
    if p == Player then Ai else Player
  }

  /** A fresh board with every cell empty. */
  function EmptyBoard(): (b: Board)
    ensures forall r, c :: InBounds(r, c) ==> b[r][c] == Empty
  {
    seq(Rows, _ => seq(Cols, _ => Empty))
  }

  /** `b'` is `b` with only cell (row, col) changed, and that cell now holds `v`. */
  ghost predicate OnlyCellChanged(b: Board, b': Board, row: int, col: int, v: Cell)
    requires InBounds(row, col)
  {
    && b'[row][col] == v
    && forall r, c :: InBounds(r, c) && (r != row || c != col) ==> b'[r][c] == b[r][c]
  }

  /** The board after the single assignment `board[row][col] = v`. */
  function Write(b: Board, row: int, col: int, v: Cell): (b': Board)
    requires InBounds(row, col)
    ensures OnlyCellChanged(b, b', row, col, v)
  {
    b[row := b[row][col := v]]
  }

  /** Writing a piece into an empty cell and then clearing it again gives
      back the board that was there before. */
  lemma WriteThenClear(b: Board, row: int, col: int, v: Cell)
    requires IsEmptyAt(b, row, col)
    ensures Write(Write(b, row, col, v), row, col, Empty) == b
  {
    var b' := Write(Write(b, row, col, v), row, col, Empty);
    forall r | 0 <= r < Rows
      ensures b'[r] == b[r]
    {
      assert |b'[r]| == |b[r]|;
      forall c | 0 <= c < Cols
        ensures b'[r][c] == b[r][c]
      {
      }
    }
  }

  /** Pieces stack from the bottom: no empty cell lies below an occupied one
      in the same column. */
  predicate Stacked(b: Board) {
    forall c, r1, r2 :: 0 <= c < Cols && 0 <= r1 < r2 < Rows && b[r1][c] != Empty ==> b[r2][c] != Empty
  }

  /** The scan from `row` up to the top: the first empty cell met, or -1. */
  function LowestFrom(b: Board, col: int, row: int): (r: int)
    requires 0 <= col < Cols && -1 <= row < Rows
    ensures -1 <= r <= row
    ensures r == -1 <==> forall k :: 0 <= k <= row ==> b[k][col] != Empty
    ensures r != -1 ==> b[r][col] == Empty && forall k :: r < k <= row ==> b[k][col] != Empty
    decreases row + 1
  {
    if row < 0 then -1
    else if b[row][col] == Empty then row
    else LowestFrom(b, col, row - 1)
  }

  /** The row a piece dropped into `col` lands in, or -1 when the column has
      no empty cell (also for a column index outside the grid). */
  function LowestEmptyRow(b: Board, col: int): (r: int)
    ensures r == -1 <==> forall row :: 0 <= row < Rows ==> !IsEmptyAt(b, row, col)
    ensures r != -1 ==> 0 <= r < Rows && IsEmptyAt(b, r, col)
    ensures r != -1 ==> forall row :: r < row < Rows ==> !IsEmptyAt(b, row, col)
  {
    if 0 <= col < Cols then
      var r := LowestFrom(b, col, Rows - 1);
      assert r == -1 ==> forall row :: 0 <= row < Rows ==> b[row][col] != Empty;
      assert r != -1 ==> IsEmptyAt(b, r, col);
      assert r != -1 ==> forall row :: r < row < Rows ==> b[row][col] != Empty;
      r
    else -1
  }

  predicate StrictlyAscending(s: seq<int>) {
    forall i, j :: 0 <= i < j < |s| ==> s[i] < s[j]
  }

  /** The columns from `from` onwards that can still take a piece. */
  function OpenColumnsFrom(b: Board, from: int): (ms: seq<int>)
    requires 0 <= from <= Cols
    ensures forall i :: 0 <= i < |ms| ==> from <= ms[i] < Cols
    ensures StrictlyAscending(ms)
    ensures forall c :: c in ms <==> from <= c < Cols && LowestEmptyRow(b, c) != -1
    decreases Cols - from
  {
    if from == Cols then []
    else if LowestEmptyRow(b, from) != -1 then [from] + OpenColumnsFrom(b, from + 1)
    else OpenColumnsFrom(b, from + 1)
  }

  /** The legal moves: every column index, in ascending order, whose lowest
      empty row exists. */
  function ValidMoves(b: Board): (ms: seq<int>)
    ensures StrictlyAscending(ms)
    ensures forall i :: 0 <= i < |ms| ==> 0 <= ms[i] < Cols
    ensures forall c :: c in ms <==> 0 <= c < Cols && LowestEmptyRow(b, c) != -1
  {
    OpenColumnsFrom(b, 0)
  }

  /** No cell of `row` is empty. */
  function NoEmptyCell(row: seq<Cell>): (full: bool)
    ensures full <==> forall i :: 0 <= i < |row| ==> row[i] != Empty
  {
    |row| == 0 || (row[0] != Empty && NoEmptyCell(row[1..]))
  }

  /** No row of `rows` holds an empty cell. */
  function NoEmptyRow(rows: seq<seq<Cell>>): (full: bool)
    ensures full <==> forall r, c :: 0 <= r < |rows| && 0 <= c < |rows[r]| ==> rows[r][c] != Empty
  {
    |rows| == 0 || (NoEmptyCell(rows[0]) && NoEmptyRow(rows[1..]))
  }

  /** The draw test: no cell of the board is empty. */
  function IsBoardFull(b: Board): (full: bool)
    ensures full <==> forall r, c :: InBounds(r, c) ==> b[r][c] != Empty
  {
    NoEmptyRow(b)
  }

  /** The board is full exactly when no move is left. */
  lemma FullIffNoValidMoves(b: Board)
    ensures IsBoardFull(b) <==> ValidMoves(b) == []
  {
    if !IsBoardFull(b) {
      var r, c :| InBounds(r, c) && b[r][c] == Empty;
      assert IsEmptyAt(b, r, c);
      assert c in ValidMoves(b);
    }
    forall c | c in ValidMoves(b)
      ensures !IsBoardFull(b)
    {
      var r := LowestEmptyRow(b, c);
      assert IsEmptyAt(b, r, c);
    }
  }

  /** On a stacked board a column can take a piece exactly when its top cell
      is empty: the test the Python version of the game uses. */
  lemma OpenIffTopEmpty(b: Board, col: int)
    requires Stacked(b) && 0 <= col < Cols
    ensures LowestEmptyRow(b, col) != -1 <==> b[0][col] == Empty
  {
    if b[0][col] != Empty {
      assert forall row :: 0 <= row < Rows ==> b[row][col] != Empty;
    } else {
      assert IsEmptyAt(b, 0, col);
    }
  }

  /** The empty board satisfies the stacking invariant. */
  lemma EmptyBoardStacked()
    ensures Stacked(EmptyBoard())
  {
  }

  /** Dropping a piece into the lowest empty row of a column keeps the
      stacking invariant. */
  lemma DropKeepsStacked(b: Board, col: int, v: Piece)
    requires Stacked(b) && LowestEmptyRow(b, col) != -1
    ensures Stacked(Write(b, LowestEmptyRow(b, col), col, v))
  {
    var row := LowestEmptyRow(b, col);
    var b' := Write(b, row, col, v);
    forall c, r1, r2 | 0 <= c < Cols && 0 <= r1 < r2 < Rows && b'[r1][c] != Empty
      ensures b'[r2][c] != Empty
    {
      if c == col && r2 > row {
        assert !IsEmptyAt(b, r2, col);
      } else if c != col {
        assert b[r1][c] != Empty;
      }
    }
  }
}
