/** The computer player's move choice: take a winning column if there is
    one, otherwise block the opponent's winning column, otherwise pick a
    legal column at random. Candidate moves are tried by writing the piece
    into the board and clearing the cell again. */
module Strategy {
  import opened Board
  import opened Win

  /** Dropping `piece` into `col` fills a cell that then completes a line of
      four or more. */
  predicate WinsByDropping(b: Board, col: int, piece: Piece) {
    var row := LowestEmptyRow(b, col);
    row != -1 && CheckWin(Write(b, row, col, piece), Pos(row, col)).Some?
  }

  /** Dropping `piece` into `col` wins exactly when the column is open and,
      after the drop, a run of four or more passes through the new piece. */
  lemma WinsByDroppingIffRun(b: Board, col: int, piece: Piece)
    ensures var row := LowestEmptyRow(b, col);
            WinsByDropping(b, col, piece) <==>
              row != -1 && WinThrough(Write(b, row, col, piece), Pos(row, col))
  {
    var row := LowestEmptyRow(b, col);
    if row != -1 {
      CheckWinIffRun(Write(b, row, col, piece), Pos(row, col));
    }
  }

  /** Some legal column lets `piece` win at once. */
  predicate CanWinNow(b: Board, piece: Piece) {
    exists c :: c in ValidMoves(b) && WinsByDropping(b, c, piece)
  }

  /** `col` is the smallest legal column that lets `piece` win at once. */
  predicate FirstWinning(b: Board, col: int, piece: Piece) {
    && col in ValidMoves(b)
    && WinsByDropping(b, col, piece)
    && forall c :: c in ValidMoves(b) && c < col ==> !WinsByDropping(b, c, piece)
  }

  /** Scaling a value from [0, 1) by a positive count `n` lands in [0, n). */
  lemma {:induction false} ScaleBound(rand: real, n: int)
    requires 0.0 <= rand < 1.0 && n > 0
    ensures 0.0 <= rand * (n as real) < n as real
  {
    if n > 1 {
      ScaleBound(rand, n - 1);
      assert rand * (n as real) == rand * ((n - 1) as real) + rand;
    }
  }

  /** `Math.floor(rand * n)` for a `rand` drawn from [0, 1). */
  function RandomIndex(rand: real, n: int): (i: int)
    requires 0.0 <= rand < 1.0 && n > 0
    ensures 0 <= i < n
  {
    ScaleBound(rand, n);
    (rand * (n as real)).Floor
  }

  /** One trial: write `piece` into the lowest empty row of `col`, ask the
      win detector about that cell, and clear the cell again. */
  method TryDrop(board: Board, col: int, piece: Piece) returns (won: bool, after: Board)
    requires LowestEmptyRow(board, col) != -1
    ensures won <==> WinsByDropping(board, col, piece)
    ensures after == board
  {
    var row := LowestEmptyRow(board, col);
    var trial := Write(board, row, col, piece);
    won := CheckWin(trial, Pos(row, col)).Some?;
    after := Write(trial, row, col, Empty);
    WriteThenClear(board, row, col, piece);
  }

  /** In an ascending list, a listed value below `s[i]` sits before index `i`. */
  lemma BeforeInAscending(s: seq<int>, i: int, c: int) returns (j: int)
    requires StrictlyAscending(s) && 0 <= i < |s|
    requires c in s && c < s[i]
    ensures 0 <= j < i && s[j] == c
  {
    j :| 0 <= j < |s| && s[j] == c;
  }

  /** Scans the ascending column list `moves` in order for the first column
      where dropping `piece` wins, trying each by a write that is undone
      before the next one. Returns that column, or -1; the board handed back
      is the board that came in. */
  method FirstWinningIn(b: Board, moves: seq<int>, piece: Piece) returns (col: int, after: Board)
    requires StrictlyAscending(moves)
    requires forall i :: 0 <= i < |moves| ==> LowestEmptyRow(b, moves[i]) != -1
    ensures after == b
    ensures col == -1 ==> forall c :: c in moves ==> !WinsByDropping(b, c, piece)
    ensures col != -1 ==> col in moves && WinsByDropping(b, col, piece)
    ensures col != -1 ==> forall c :: c in moves && c < col ==> !WinsByDropping(b, c, piece)
  {
    var board := b;
    var i := 0;
    while i < |moves|
      invariant 0 <= i <= |moves|
      invariant board == b
      invariant forall j :: 0 <= j < i ==> !WinsByDropping(b, moves[j], piece)
    {
      var won;
      won, board := TryDrop(board, moves[i], piece);
      if won {
        forall c | c in moves && c < moves[i]
          ensures !WinsByDropping(b, c, piece)
        {
          var j := BeforeInAscending(moves, i, c);
        }
        return moves[i], board;
      }
      forall j | 0 <= j < i + 1
        ensures !WinsByDropping(b, moves[j], piece)
      {
        if j == i {
          assert !won;
        }
      }
      i := i + 1;
    }
    forall c | c in moves
      ensures !WinsByDropping(b, c, piece)
    {
      var j :| 0 <= j < |moves| && moves[j] == c;
    }
    return -1, board;
  }

  /** `findBestMove`: -1 when no column is open; otherwise the smallest
      winning column, else the smallest column that blocks the opponent,
      else the legal column at `RandomIndex(rand, ...)`. */
  method FindBestMove(b: Board, rand: real) returns (col: int, after: Board)
    requires 0.0 <= rand < 1.0
    ensures after == b
    ensures col == -1 <==> ValidMoves(b) == []
    ensures col != -1 ==> col in ValidMoves(b)
    ensures CanWinNow(b, Ai) ==> FirstWinning(b, col, Ai)
    ensures !CanWinNow(b, Ai) && CanWinNow(b, Player) ==> FirstWinning(b, col, Player)
    ensures !CanWinNow(b, Ai) && !CanWinNow(b, Player) && col != -1 ==>
              col == ValidMoves(b)[RandomIndex(rand, |ValidMoves(b)|)]
  {
    var moves := ValidMoves(b);
    if |moves| == 0 {
      return -1, b;
    }
    var win, board := FirstWinningIn(b, moves, Ai);
    if win != -1 {
      return win, board;
    }
    var block;
    block, board := FirstWinningIn(board, moves, Player);
    if block != -1 {
      return block, board;
    }
    return moves[RandomIndex(rand, |moves|)], board;
  }
}
