/** Win detection around the cell just played: along each of four line
    directions, walk both ways from that cell while the cells match it, and
    report the walked cells as soon as one line holds four or more. */
module Win {
  import opened Wrappers
  import opened Board

  datatype Pos = Pos(row: int, col: int)

  /** A step (dr, dc) on the grid; `dr` moves along rows, `dc` along columns. */
  datatype Dir = Dir(dr: int, dc: int)

  predicate IsUnit(d: Dir) {
    -1 <= d.dr <= 1 && -1 <= d.dc <= 1 && (d.dr != 0 || d.dc != 0)
  }

  function Neg(d: Dir): Dir {
    Dir(-d.dr, -d.dc)
  }

  /** The direction pairs in the order the detector tries them: horizontal,
      vertical, and the two diagonals. Each pair is a direction and its
      opposite. */
  const Directions: seq<(Dir, Dir)> := [
    (Dir(0, 1), Dir(0, -1)),
    (Dir(1, 0), Dir(-1, 0)),
    (Dir(1, 1), Dir(-1, -1)),
    (Dir(1, -1), Dir(-1, 1))
  ]

  /** `x + d * k` for a unit step `d`, kept linear for the solver. */
  function Shift(x: int, d: int, k: int): int {
    if d > 0 then x + k else if d < 0 then x - k else x
  }

  /** The cell `k` steps from `p` along `d` (negative `k` goes backwards). */
  function At(p: Pos, d: Dir, k: int): Pos {
    Pos(Shift(p.row, d.dr, k), Shift(p.col, d.dc, k))
  }

  /** Cell `q` is on the board and holds `piece`. */
  predicate Holds(b: Board, q: Pos, piece: Cell) {
    InBounds(q.row, q.col) && b[q.row][q.col] == piece
  }

  /** How many more steps along `d` stay on a line of length `n` from `x`. */
  function Room(x: int, d: int, n: int): int {
    if d > 0 then n - x else if d < 0 then x + 1 else 0
  }

  lemma AtNext(p: Pos, d: Dir)
    ensures forall k :: At(At(p, d, 1), d, k) == At(p, d, k + 1)
  {
  }

  /** The cells visited by one inner walk: from the neighbour of `p` along
      `d`, onwards while the cell is on the board and holds `piece`. */
  function Ray(b: Board, p: Pos, d: Dir, piece: Cell): (cells: seq<Pos>)
    requires InBounds(p.row, p.col) && IsUnit(d)
    ensures forall i :: 0 <= i < |cells| ==> cells[i] == At(p, d, i + 1) && Holds(b, cells[i], piece)
    ensures !Holds(b, At(p, d, |cells| + 1), piece)
    decreases Room(p.row, d.dr, Rows) + Room(p.col, d.dc, Cols)
  {
    var q := At(p, d, 1);
    if Holds(b, q, piece) then
      AtNext(p, d);
      [q] + Ray(b, q, d, piece)
    else
      []
  }

  /** The cells collected for one direction pair: the start cell, then the
      walk along the first direction, then the walk along the second. */
  function Line(b: Board, p: Pos, pair: (Dir, Dir)): seq<Pos>
    requires InBounds(p.row, p.col) && IsUnit(pair.0) && IsUnit(pair.1)
  {
    var piece := b[p.row][p.col];
    [p] + Ray(b, p, pair.0, piece) + Ray(b, p, pair.1, piece)
  }

  /** Every collected cell holds the piece of the start cell, which comes
      first. */
  lemma LineHolds(b: Board, p: Pos, pair: (Dir, Dir))
    requires InBounds(p.row, p.col) && IsUnit(pair.0) && IsUnit(pair.1)
    ensures Line(b, p, pair)[0] == p
    ensures forall q :: q in Line(b, p, pair) ==> Holds(b, q, b[p.row][p.col])
  {
    var piece := b[p.row][p.col];
    var f := Ray(b, p, pair.0, piece);
    var g := Ray(b, p, pair.1, piece);
    assert Line(b, p, pair) == [p] + f + g;
    forall q | q in Line(b, p, pair)
      ensures Holds(b, q, piece)
    {
      if q == p {
      } else if q in f {
        var k :| 0 <= k < |f| && f[k] == q;
      } else {
        var k :| 0 <= k < |g| && g[k] == q;
      }
    }
  }

  /** The direction pairs from index `i` on, tried in order. */
  function TryFrom(b: Board, p: Pos, i: nat): (r: Option<seq<Pos>>)
    requires InBounds(p.row, p.col) && i <= |Directions|
    ensures r.Some? ==> |r.value| >= 4 && r.value[0] == p
    ensures r.Some? ==> forall q :: q in r.value ==> Holds(b, q, b[p.row][p.col])
    decreases |Directions| - i
  {
    if i == |Directions| then None
    else
      var cells := Line(b, p, Directions[i]);
      LineHolds(b, p, Directions[i]);
      if |cells| >= 4 then Some(cells) else TryFrom(b, p, i + 1)
  }

  /** `checkWin`: the cells of the first direction pair whose walk collects
      four or more cells matching the piece at `p`, or None. */
  function CheckWin(b: Board, p: Pos): (r: Option<seq<Pos>>)
    requires InBounds(p.row, p.col)
    ensures r.Some? ==> |r.value| >= 4 && r.value[0] == p
    ensures r.Some? ==> forall q :: q in r.value ==> Holds(b, q, b[p.row][p.col])
  {
    TryFrom(b, p, 0)
  }

  // ---------------------------------------------------------------------
  // Independent characterisation: a run of four through the start cell.

  /** Every cell from `lo` to `hi` steps along `d` from `p` holds `piece`. */
  ghost predicate RunBetween(b: Board, p: Pos, d: Dir, lo: int, hi: int, piece: Cell) {
    forall k :: lo <= k <= hi ==> Holds(b, At(p, d, k), piece)
  }

  /** Some run of at least four contiguous on-board cells, all holding
      `piece`, passes through `p` along direction `d`. */
  ghost predicate HasRun(b: Board, p: Pos, d: Dir, piece: Cell) {
    exists lo, hi :: lo <= 0 <= hi && hi - lo + 1 >= 4 && RunBetween(b, p, d, lo, hi, piece)
  }

  /** Some line direction carries a run of four through `p` of its piece. */
  ghost predicate WinThrough(b: Board, p: Pos)
    requires InBounds(p.row, p.col)
  {
    exists i :: 0 <= i < |Directions| && HasRun(b, p, Directions[i].0, b[p.row][p.col])
  }

  lemma NegAt(p: Pos, d: Dir, k: int)
    ensures At(p, Neg(d), k) == At(p, d, -k)
  {
  }

  /** The walks from `p` along `d` and its opposite cover a run from
      `-|g|` to `|f|` steps, where `f` and `g` are the two walks. */
  lemma LineRun(b: Board, p: Pos, d: Dir)
    requires InBounds(p.row, p.col) && IsUnit(d)
    ensures var piece := b[p.row][p.col];
            RunBetween(b, p, d, -|Ray(b, p, Neg(d), piece)|, |Ray(b, p, d, piece)|, piece)
  {
    var piece := b[p.row][p.col];
    var f := Ray(b, p, d, piece);
    var g := Ray(b, p, Neg(d), piece);
    forall k | -|g| <= k <= |f|
      ensures Holds(b, At(p, d, k), piece)
    {
      if k < 0 {
        NegAt(p, d, -k);
        assert g[-k - 1] == At(p, d, k);
      } else if k == 0 {
        assert At(p, d, 0) == p;
      } else {
        assert f[k - 1] == At(p, d, k);
      }
    }
  }

  /** A run from `p` along `d` ends within the walk along `d`. */
  lemma RunInsideRay(b: Board, p: Pos, d: Dir, hi: int)
    requires InBounds(p.row, p.col) && IsUnit(d)
    requires 0 <= hi && RunBetween(b, p, d, 0, hi, b[p.row][p.col])
    ensures hi <= |Ray(b, p, d, b[p.row][p.col])|
  {
    var piece := b[p.row][p.col];
    var f := Ray(b, p, d, piece);
    assert !Holds(b, At(p, d, |f| + 1), piece);
  }

  /** A run along `d` from `lo` up to `p` is a run along the opposite
      direction from `p` up to `-lo`. */
  lemma RunFlip(b: Board, p: Pos, d: Dir, lo: int, piece: Cell)
    requires lo <= 0 && RunBetween(b, p, d, lo, 0, piece)
    ensures RunBetween(b, p, Neg(d), 0, -lo, piece)
  {
    forall k | 0 <= k <= -lo
      ensures Holds(b, At(p, Neg(d), k), piece)
    {
      NegAt(p, d, k);
    }
  }

  /** A run through `p` along `d` reaches backwards no further than the
      walk along the opposite direction. */
  lemma RunInsideNegRay(b: Board, p: Pos, d: Dir, lo: int)
    requires InBounds(p.row, p.col) && IsUnit(d)
    requires lo <= 0 && RunBetween(b, p, d, lo, 0, b[p.row][p.col])
    ensures -lo <= |Ray(b, p, Neg(d), b[p.row][p.col])|
  {
    RunFlip(b, p, d, lo, b[p.row][p.col]);
    RunInsideRay(b, p, Neg(d), -lo);
  }

  /** The cells collected for a direction pair number four or more exactly
      when a run of four of the start cell's piece lies on that line. */
  lemma LineIffRun(b: Board, p: Pos, d: Dir)
    requires InBounds(p.row, p.col) && IsUnit(d)
    ensures |Line(b, p, (d, Neg(d)))| >= 4 <==> HasRun(b, p, d, b[p.row][p.col])
  {
    var piece := b[p.row][p.col];
    var f := Ray(b, p, d, piece);
    var g := Ray(b, p, Neg(d), piece);
    assert |Line(b, p, (d, Neg(d)))| == 1 + |f| + |g|;
    LineRun(b, p, d);
    if HasRun(b, p, d, piece) {
      var lo, hi :| lo <= 0 <= hi && hi - lo + 1 >= 4 && RunBetween(b, p, d, lo, hi, piece);
      RunInsideRay(b, p, d, hi);
      RunInsideNegRay(b, p, d, lo);
    }
  }

  lemma DirectionsArePairs(i: int)
    requires 0 <= i < |Directions|
    ensures IsUnit(Directions[i].0) && Directions[i].1 == Neg(Directions[i].0)
  {
  }

  /** Pair `i` of `Directions` collects four or more cells exactly when its
      first direction carries a run of four through `p`. */
  lemma PairIffRun(b: Board, p: Pos, i: int)
    requires InBounds(p.row, p.col) && 0 <= i < |Directions|
    ensures |Line(b, p, Directions[i])| >= 4 <==> HasRun(b, p, Directions[i].0, b[p.row][p.col])
  {
    var d := Directions[i].0;
    DirectionsArePairs(i);
    assert Directions[i] == (d, Neg(d));
    LineIffRun(b, p, d);
  }

  /** Some direction pair from index `i` on carries a run of four through `p`. */
  ghost predicate RunAmong(b: Board, p: Pos, i: nat)
    requires InBounds(p.row, p.col)
  {
    exists j :: i <= j < |Directions| && HasRun(b, p, Directions[j].0, b[p.row][p.col])
  }

  lemma RunAmongStep(b: Board, p: Pos, i: nat)
    requires InBounds(p.row, p.col) && i < |Directions|
    ensures RunAmong(b, p, i) <==> HasRun(b, p, Directions[i].0, b[p.row][p.col]) || RunAmong(b, p, i + 1)
  {
    var piece := b[p.row][p.col];
    if RunAmong(b, p, i) && !HasRun(b, p, Directions[i].0, piece) {
      var j :| i <= j < |Directions| && HasRun(b, p, Directions[j].0, piece);
      assert i + 1 <= j;
    }
    if HasRun(b, p, Directions[i].0, piece) {
      assert i <= i < |Directions|;
    }
  }

  lemma {:induction false} TryFromIffRun(b: Board, p: Pos, i: nat)
    requires InBounds(p.row, p.col) && i <= |Directions|
    ensures TryFrom(b, p, i).Some? <==> RunAmong(b, p, i)
    decreases |Directions| - i
  {
    if i < |Directions| {
      PairIffRun(b, p, i);
      TryFromIffRun(b, p, i + 1);
      RunAmongStep(b, p, i);
      assert TryFrom(b, p, i).Some? <==> |Line(b, p, Directions[i])| >= 4 || TryFrom(b, p, i + 1).Some?;
    }
  }

  /** `CheckWin` reports a win exactly when some line direction carries a
      run of at least four contiguous cells holding the piece at `p`. */
  lemma CheckWinIffRun(b: Board, p: Pos)
    requires InBounds(p.row, p.col)
    ensures CheckWin(b, p).Some? <==> WinThrough(b, p)
  {
    TryFromIffRun(b, p, 0);
  }

  // ---------------------------------------------------------------------
  // Shape of the reported cells.

  /** The position of the `i`-th collected cell on its line, when the first
      walk collected `n` cells: 0 for the start cell, positive offsets for
      the first walk, negative ones for the second. */
  function Offset(i: int, n: int): int {
    if i <= n then i else n - i
  }

  /** `cells` is the maximal run of `piece` through `p` along `d`, listed in
      walk order: `p`, then the `n` cells forwards along `d` nearest first,
      then the rest backwards nearest first; the cell past each end is off
      the board or holds something else. */
  ghost predicate WalkedRun(b: Board, cells: seq<Pos>, p: Pos, d: Dir, n: int, piece: Cell) {
    && 0 <= n < |cells|
    && (forall k :: 0 <= k < |cells| ==> cells[k] == At(p, d, Offset(k, n)) && Holds(b, cells[k], piece))
    && !Holds(b, At(p, d, n + 1), piece)
    && !Holds(b, At(p, Neg(d), |cells| - n), piece)
  }

  /** No cell appears twice. */
  predicate Distinct(cells: seq<Pos>) {
    forall i, j :: 0 <= i < j < |cells| ==> cells[i] != cells[j]
  }

  lemma AtInjective(p: Pos, d: Dir, k1: int, k2: int)
    requires IsUnit(d) && At(p, d, k1) == At(p, d, k2)
    ensures k1 == k2
  {
  }

  /** Cells listed in walk order are pairwise distinct. */
  lemma WalkedRunDistinct(b: Board, cells: seq<Pos>, p: Pos, d: Dir, n: int, piece: Cell)
    requires IsUnit(d) && WalkedRun(b, cells, p, d, n, piece)
    ensures Distinct(cells)
  {
    forall i, j | 0 <= i < j < |cells|
      ensures cells[i] != cells[j]
    {
      if cells[i] == cells[j] {
        AtInjective(p, d, Offset(i, n), Offset(j, n));
      }
    }
  }

  /** The `i`-th collected cell along `d` and its opposite lies `Offset(i, n)`
      steps from `p`, where `n` is the length of the first walk. */
  lemma LineCells(b: Board, p: Pos, d: Dir)
    requires InBounds(p.row, p.col) && IsUnit(d)
    ensures var n := |Ray(b, p, d, b[p.row][p.col])|;
            var line := Line(b, p, (d, Neg(d)));
            forall i :: 0 <= i < |line| ==> line[i] == At(p, d, Offset(i, n))
  {
    var piece := b[p.row][p.col];
    var f := Ray(b, p, d, piece);
    var g := Ray(b, p, Neg(d), piece);
    var line := Line(b, p, (d, Neg(d)));
    assert line == [p] + f + g;
    forall i | 0 <= i < |line|
      ensures line[i] == At(p, d, Offset(i, |f|))
    {
      if i == 0 {
        assert At(p, d, 0) == p;
      } else if i <= |f| {
        assert line[i] == f[i - 1];
      } else {
        assert line[i] == g[i - |f| - 1];
        NegAt(p, d, i - |f|);
      }
    }
  }

  /** The cell one step past either end of the collected cells does not hold
      the start cell's piece. */
  lemma LineEnds(b: Board, p: Pos, d: Dir)
    requires InBounds(p.row, p.col) && IsUnit(d)
    ensures var piece := b[p.row][p.col];
            var n := |Ray(b, p, d, piece)|;
            var line := Line(b, p, (d, Neg(d)));
            0 <= n < |line| && !Holds(b, At(p, d, n + 1), piece) && !Holds(b, At(p, Neg(d), |line| - n), piece)
  {
    var piece := b[p.row][p.col];
    var f := Ray(b, p, d, piece);
    var g := Ray(b, p, Neg(d), piece);
    assert |Line(b, p, (d, Neg(d)))| - |f| == |g| + 1;
  }

  /** The cells collected along `d` and its opposite are the maximal run
      through `p` in walk order. */
  lemma LineShape(b: Board, p: Pos, d: Dir)
    requires InBounds(p.row, p.col) && IsUnit(d)
    ensures WalkedRun(b, Line(b, p, (d, Neg(d))), p, d, |Ray(b, p, d, b[p.row][p.col])|, b[p.row][p.col])
  {
    LineCells(b, p, d);
    LineEnds(b, p, d);
    LineHolds(b, p, (d, Neg(d)));
  }

  /** What a report from direction pair `j` on looks like: pair `j` carries a
      run, no earlier pair from `i` on does, and the report is that run. */
  ghost predicate ReportFrom(b: Board, p: Pos, i: nat, j: int, cells: seq<Pos>)
    requires InBounds(p.row, p.col)
  {
    var piece := b[p.row][p.col];
    && i <= j < |Directions|
    && HasRun(b, p, Directions[j].0, piece)
    && (forall j' :: i <= j' < j ==> !HasRun(b, p, Directions[j'].0, piece))
    && (exists n :: WalkedRun(b, cells, p, Directions[j].0, n, piece))
    && Distinct(cells)
  }

  /** When pair `i` collects four or more cells, they are the report. */
  lemma PairReport(b: Board, p: Pos, i: nat)
    requires InBounds(p.row, p.col) && i < |Directions|
    requires |Line(b, p, Directions[i])| >= 4
    ensures ReportFrom(b, p, i, i, Line(b, p, Directions[i]))
  {
    var piece := b[p.row][p.col];
    var d := Directions[i].0;
    DirectionsArePairs(i);
    assert Directions[i] == (d, Neg(d));
    PairIffRun(b, p, i);
    LineShape(b, p, d);
    WalkedRunDistinct(b, Line(b, p, (d, Neg(d))), p, d, |Ray(b, p, d, piece)|, piece);
  }

  /** When pair `i` collects fewer than four cells, a report from a later
      pair is also a report counted from `i`. */
  lemma SkipPair(b: Board, p: Pos, i: nat, j: int, cells: seq<Pos>)
    requires InBounds(p.row, p.col) && i < |Directions|
    requires |Line(b, p, Directions[i])| < 4
    requires ReportFrom(b, p, i + 1, j, cells)
    ensures ReportFrom(b, p, i, j, cells)
  {
    PairIffRun(b, p, i);
  }

  lemma {:induction false} TryFromShape(b: Board, p: Pos, i: nat)
    requires InBounds(p.row, p.col) && i <= |Directions|
    requires TryFrom(b, p, i).Some?
    ensures exists j :: ReportFrom(b, p, i, j, TryFrom(b, p, i).value)
    decreases |Directions| - i
  {
    if |Line(b, p, Directions[i])| >= 4 {
      PairReport(b, p, i);
      assert TryFrom(b, p, i).value == Line(b, p, Directions[i]);
    } else {
      TryFromShape(b, p, i + 1);
      var j :| ReportFrom(b, p, i + 1, j, TryFrom(b, p, i + 1).value);
      assert TryFrom(b, p, i) == TryFrom(b, p, i + 1);
      SkipPair(b, p, i, j, TryFrom(b, p, i).value);
    }
  }

  /** A reported win is the maximal run of the played piece through the
      played cell along the first direction pair that carries a run of four
      or more, listed in walk order without repeats; so the number of
      reported cells is the length of that run. */
  lemma CheckWinShape(b: Board, p: Pos)
    requires InBounds(p.row, p.col) && CheckWin(b, p).Some?
    ensures exists j :: 0 <= j < |Directions| && ReportFrom(b, p, 0, j, CheckWin(b, p).value)
  {
    TryFromShape(b, p, 0);
    var j :| ReportFrom(b, p, 0, j, TryFrom(b, p, 0).value);
  }

  /** Worked example: with three human pieces in the bottom row, the fourth
      dropped into column 3 wins. The first walk (towards higher columns)
      finds nothing, the second collects columns 2, 1 and 0 in that order. */
  lemma BottomRowWin()
    ensures var b := EmptyBoard()[5 := [Player, Player, Player, Player, Empty, Empty, Empty]];
            CheckWin(b, Pos(5, 3)) == Some([Pos(5, 3), Pos(5, 2), Pos(5, 1), Pos(5, 0)])
  {
    var b := EmptyBoard()[5 := [Player, Player, Player, Player, Empty, Empty, Empty]];
    assert Ray(b, Pos(5, 3), Dir(0, 1), Player) == [];
    assert Ray(b, Pos(5, 0), Dir(0, -1), Player) == [];
    assert Ray(b, Pos(5, 1), Dir(0, -1), Player) == [Pos(5, 0)];
    assert Ray(b, Pos(5, 2), Dir(0, -1), Player) == [Pos(5, 1), Pos(5, 0)];
    assert Ray(b, Pos(5, 3), Dir(0, -1), Player) == [Pos(5, 2), Pos(5, 1), Pos(5, 0)];
    assert Line(b, Pos(5, 3), Directions[0]) == [Pos(5, 3), Pos(5, 2), Pos(5, 1), Pos(5, 0)];
  }

  /** Worked example: a computer piece at column 2 splits the bottom row.
      A human piece at column 3 reports only columns 3 to 6. The human
      pieces at columns 0 and 1 lie on the same line but are not reported,
      because the walk stops at column 2. */
  lemma BlockedRowWin()
    ensures var b := EmptyBoard()[5 := [Player, Player, Ai, Player, Player, Player, Player]];
            CheckWin(b, Pos(5, 3)) == Some([Pos(5, 3), Pos(5, 4), Pos(5, 5), Pos(5, 6)])
  {
    var b := EmptyBoard()[5 := [Player, Player, Ai, Player, Player, Player, Player]];
    assert Ray(b, Pos(5, 6), Dir(0, 1), Player) == [];
    assert Ray(b, Pos(5, 5), Dir(0, 1), Player) == [Pos(5, 6)];
    assert Ray(b, Pos(5, 4), Dir(0, 1), Player) == [Pos(5, 5), Pos(5, 6)];
    assert Ray(b, Pos(5, 3), Dir(0, 1), Player) == [Pos(5, 4), Pos(5, 5), Pos(5, 6)];
    assert Ray(b, Pos(5, 3), Dir(0, -1), Player) == [];
    assert Line(b, Pos(5, 3), Directions[0]) == [Pos(5, 3), Pos(5, 4), Pos(5, 5), Pos(5, 6)];
  }
}
