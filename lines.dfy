/** The lines the game's win check walks (ex1/Game.java,
    checkStraightStreak, checkLeftDiagonalStreak and
    checkRightDiagonalStreak), and what a win is: k consecutive cells of one
    mark along a row, a column or either diagonal direction. */
module Lines {
  import opened Boards
  import opened Streaks

  function Shorter(a: int, b: int): int {
    if a <= b then a else b
  }

  /** Row r read left to right. */
  function RowMarks(g: Grid, n: int, r: int): (s: seq<Mark>)
    requires Square(g, n) && 0 <= r < n
    ensures |s| == n && forall c :: 0 <= c < n ==> s[c] == g[r][c]
  {
    g[r]
  }

  /** Column c read top to bottom. */
  function ColMarks(g: Grid, n: int, c: int): (s: seq<Mark>)
    requires Square(g, n) && 0 <= c < n
    ensures |s| == n && forall r :: 0 <= r < n ==> s[r] == g[r][c]
  {
    seq(n, r requires 0 <= r < n => g[r][c])
  }

  /** The cells from (r0, c0) down and to the left, up to the board's edge. */
  function AntiMarks(g: Grid, n: int, r0: int, c0: int): (s: seq<Mark>)
    requires Square(g, n) && 0 <= r0 < n && 0 <= c0 < n
    ensures |s| == Shorter(n - r0, c0 + 1)
    ensures forall i :: 0 <= i < |s| ==> s[i] == g[r0 + i][c0 - i]
  {
    seq(Shorter(n - r0, c0 + 1), i requires 0 <= i < Shorter(n - r0, c0 + 1) => g[r0 + i][c0 - i])
  }

  /** The cells from (r0, c0) down and to the right, up to the board's edge. */
  function DiagMarks(g: Grid, n: int, r0: int, c0: int): (s: seq<Mark>)
    requires Square(g, n) && 0 <= r0 < n && 0 <= c0 < n
    ensures |s| == Shorter(n - r0, n - c0)
    ensures forall i :: 0 <= i < |s| ==> s[i] == g[r0 + i][c0 + i]
  {
    seq(Shorter(n - r0, n - c0), i requires 0 <= i < Shorter(n - r0, n - c0) => g[r0 + i][c0 + i])
  }

  /** Where the left-diagonal scan starts a line: every cell of the top
      row, then every cell of the right column below it. */
  predicate AntiStart(n: int, r0: int, c0: int) {
    (r0 == 0 && 0 <= c0 < n) || (1 <= r0 < n && c0 == n - 1)
  }

  /** Where the right-diagonal scan starts a line: every cell of the top
      row, then every cell of the left column below it. */
  predicate DiagStart(n: int, r0: int, c0: int) {
    (r0 == 0 && 0 <= c0 < n) || (1 <= r0 < n && c0 == 0)
  }

  /** k cells of `mark` in row r, from column c rightwards. */
  ghost predicate RowRun(g: Grid, n: int, mark: Mark, k: int, r: int, c: int)
    requires Square(g, n)
  {
    0 <= r < n && 0 <= c && c + k <= n && forall j :: c <= j < c + k ==> g[r][j] == mark
  }

  /** k cells of `mark` in column c, from row r downwards. */
  ghost predicate ColRun(g: Grid, n: int, mark: Mark, k: int, r: int, c: int)
    requires Square(g, n)
  {
    0 <= c < n && 0 <= r && r + k <= n && forall i :: r <= i < r + k ==> g[i][c] == mark
  }

  /** k cells of `mark` from (r, c) down and to the right. */
  ghost predicate DiagRun(g: Grid, n: int, mark: Mark, k: int, r: int, c: int)
    requires Square(g, n)
  {
    0 <= r && r + k <= n && 0 <= c && c + k <= n
    && forall i :: r <= i < r + k ==> g[i][c + (i - r)] == mark
  }

  /** k cells of `mark` from (r, c) down and to the left. */
  ghost predicate AntiRun(g: Grid, n: int, mark: Mark, k: int, r: int, c: int)
    requires Square(g, n)
  {
    0 <= r && r + k <= n && c < n && 0 <= c - (k - 1)
    && forall i :: r <= i < r + k ==> g[i][c - (i - r)] == mark
  }

  /** `mark` has a winning streak of k >= 1 cells somewhere on the board. */
  ghost predicate Wins(g: Grid, n: int, mark: Mark, k: int)
    requires Square(g, n)
  {
    k >= 1
    && exists r, c :: RowRun(g, n, mark, k, r, c) || ColRun(g, n, mark, k, r, c)
                   || DiagRun(g, n, mark, k, r, c) || AntiRun(g, n, mark, k, r, c)
  }

  /** Row `line`, or column `line` when lineDirection is false. */
  function StraightMarks(g: Grid, n: int, lineDirection: bool, line: int): (s: seq<Mark>)
    requires Square(g, n) && 0 <= line < n
    ensures |s| == n
  {
    if lineDirection then RowMarks(g, n, line) else ColMarks(g, n, line)
  }

  /** The row scan (or the column scan, when lineDirection is false) has
      fired on one of its first `lines` lines. */
  ghost predicate StraightScanned(g: Grid, n: int, mark: Mark, k: int, lineDirection: bool, lines: int)
    requires Square(g, n)
  {
    exists r :: 0 <= r < lines && r < n && Fires(StraightMarks(g, n, lineDirection, r), mark, k)
  }

  /** The left-diagonal scan has fired on a line it has walked so far: the
      lines of the start rows above `row`, and those of `row` left of
      `col`. */
  ghost predicate AntiScanned(g: Grid, n: int, mark: Mark, k: int, row: int, col: int)
    requires Square(g, n)
  {
    exists r0, c0 :: AntiStart(n, r0, c0) && (r0 < row || (r0 == row && c0 < col))
                     && Fires(AntiMarks(g, n, r0, c0), mark, k)
  }

  /** The right-diagonal scan has fired on a line it has walked so far:
      the lines of the start rows above `row`, and those of `row` from
      `col` rightwards (that scan walks a row's start cells right to
      left). */
  ghost predicate DiagScanned(g: Grid, n: int, mark: Mark, k: int, row: int, col: int)
    requires Square(g, n)
  {
    exists r0, c0 :: DiagStart(n, r0, c0) && (r0 < row || (r0 == row && c0 >= col))
                     && Fires(DiagMarks(g, n, r0, c0), mark, k)
  }

  /** Walking one more straight line adds exactly that line's verdict. */
  lemma StraightScanStep(g: Grid, n: int, mark: Mark, k: int, lineDirection: bool, line: int)
    requires Square(g, n) && 0 <= line < n
    ensures StraightScanned(g, n, mark, k, lineDirection, line + 1)
        <==> StraightScanned(g, n, mark, k, lineDirection, line)
             || Fires(StraightMarks(g, n, lineDirection, line), mark, k)
  {
  }

  /** Walking the line from a start cell adds exactly that line's verdict. */
  lemma AntiScanStep(g: Grid, n: int, mark: Mark, k: int, row: int, col: int)
    requires Square(g, n) && AntiStart(n, row, col)
    ensures AntiScanned(g, n, mark, k, row, col + 1)
        <==> AntiScanned(g, n, mark, k, row, col) || Fires(AntiMarks(g, n, row, col), mark, k)
  {
  }

  /** Cells of a row that start no line add nothing, and a row's last
      start is followed by the next row's first. */
  lemma AntiScanSkip(g: Grid, n: int, mark: Mark, k: int, row: int)
    requires Square(g, n) && 0 <= row < n
    ensures row >= 1 ==> (AntiScanned(g, n, mark, k, row, 0) <==> AntiScanned(g, n, mark, k, row, n - 1))
    ensures AntiScanned(g, n, mark, k, row, n) <==> AntiScanned(g, n, mark, k, row + 1, 0)
  {
  }

  /** Walking the line from a start cell adds exactly that line's verdict. */
  lemma DiagScanStep(g: Grid, n: int, mark: Mark, k: int, row: int, col: int)
    requires Square(g, n) && DiagStart(n, row, col)
    ensures DiagScanned(g, n, mark, k, row, col)
        <==> DiagScanned(g, n, mark, k, row, col + 1) || Fires(DiagMarks(g, n, row, col), mark, k)
  {
  }

  /** Cells of a row that start no line add nothing, and a row's last
      start is followed by the next row's first. */
  lemma DiagScanSkip(g: Grid, n: int, mark: Mark, k: int, row: int)
    requires Square(g, n) && 0 <= row < n
    ensures row >= 1 ==> (DiagScanned(g, n, mark, k, row, n) <==> DiagScanned(g, n, mark, k, row, 1))
    ensures DiagScanned(g, n, mark, k, row, 0) <==> DiagScanned(g, n, mark, k, row + 1, n)
  {
  }

  /** The row scan fires exactly when some row holds a streak. */
  lemma RowsWin(g: Grid, n: int, mark: Mark, k: int)
    requires Square(g, n) && k >= 1
    ensures StraightScanned(g, n, mark, k, true, n) <==> (exists r, c :: RowRun(g, n, mark, k, r, c))
  {
    if StraightScanned(g, n, mark, k, true, n) {
      var r :| 0 <= r < n && Fires(StraightMarks(g, n, true, r), mark, k);
      FiresIffRun(RowMarks(g, n, r), mark, k);
      var i :| RunAt(RowMarks(g, n, r), mark, k, i);
      assert RowRun(g, n, mark, k, r, i);
    }
    if exists r, c :: RowRun(g, n, mark, k, r, c) {
      var r, c :| RowRun(g, n, mark, k, r, c);
      assert RunAt(RowMarks(g, n, r), mark, k, c);
      FiresIffRun(RowMarks(g, n, r), mark, k);
      assert Fires(StraightMarks(g, n, true, r), mark, k);
    }
  }

  /** The column scan fires exactly when some column holds a streak. */
  lemma ColumnsWin(g: Grid, n: int, mark: Mark, k: int)
    requires Square(g, n) && k >= 1
    ensures StraightScanned(g, n, mark, k, false, n) <==> (exists r, c :: ColRun(g, n, mark, k, r, c))
  {
    if StraightScanned(g, n, mark, k, false, n) {
      var c :| 0 <= c < n && Fires(StraightMarks(g, n, false, c), mark, k);
      FiresIffRun(ColMarks(g, n, c), mark, k);
      var i :| RunAt(ColMarks(g, n, c), mark, k, i);
      assert ColRun(g, n, mark, k, i, c);
    }
    if exists r, c :: ColRun(g, n, mark, k, r, c) {
      var r, c :| ColRun(g, n, mark, k, r, c);
      assert RunAt(ColMarks(g, n, c), mark, k, r);
      FiresIffRun(ColMarks(g, n, c), mark, k);
      assert Fires(StraightMarks(g, n, false, c), mark, k);
    }
  }

  /** A streak found along a left-diagonal scan line is a down-left run. */
  lemma AntiLineRun(g: Grid, n: int, mark: Mark, k: int, r0: int, c0: int, i: int)
    requires Square(g, n) && AntiStart(n, r0, c0) && RunAt(AntiMarks(g, n, r0, c0), mark, k, i)
    ensures AntiRun(g, n, mark, k, r0 + i, c0 - i)
  {
    var s := AntiMarks(g, n, r0, c0);
    forall x | r0 + i <= x < r0 + i + k
      ensures g[x][c0 - i - (x - (r0 + i))] == mark
    {
      assert s[x - r0] == mark;
    }
  }

  /** Every down-left run lies on the line of one start of the
      left-diagonal scan. */
  lemma AntiRunLine(g: Grid, n: int, mark: Mark, k: int, r: int, c: int) returns (r0: int, c0: int)
    requires Square(g, n) && AntiRun(g, n, mark, k, r, c) && k >= 1
    ensures AntiStart(n, r0, c0) && RunAt(AntiMarks(g, n, r0, c0), mark, k, r - r0)
  {
    r0, c0 := if r + c < n then 0 else r + c - n + 1, if r + c < n then r + c else n - 1;
    var s := AntiMarks(g, n, r0, c0);
    forall j | r - r0 <= j < r - r0 + k
      ensures s[j] == mark
    {
      assert g[r0 + j][c - (r0 + j - r)] == mark;
    }
  }

  /** The left-diagonal scan fires exactly when some down-left diagonal
      holds a streak: its start cells reach every such diagonal. */
  lemma AntiDiagonalsWin(g: Grid, n: int, mark: Mark, k: int)
    requires Square(g, n) && k >= 1
    ensures AntiScanned(g, n, mark, k, n, 0) <==> (exists r, c :: AntiRun(g, n, mark, k, r, c))
  {
    if AntiScanned(g, n, mark, k, n, 0) {
      var r0, c0 :| AntiStart(n, r0, c0) && Fires(AntiMarks(g, n, r0, c0), mark, k);
      FiresIffRun(AntiMarks(g, n, r0, c0), mark, k);
      var i :| RunAt(AntiMarks(g, n, r0, c0), mark, k, i);
      AntiLineRun(g, n, mark, k, r0, c0, i);
    }
    if exists r, c :: AntiRun(g, n, mark, k, r, c) {
      var r, c :| AntiRun(g, n, mark, k, r, c);
      var r0, c0 := AntiRunLine(g, n, mark, k, r, c);
      FiresIffRun(AntiMarks(g, n, r0, c0), mark, k);
      assert AntiStart(n, r0, c0) && r0 < n && Fires(AntiMarks(g, n, r0, c0), mark, k);
    }
  }

  /** A streak found along a right-diagonal scan line is a down-right run. */
  lemma DiagLineRun(g: Grid, n: int, mark: Mark, k: int, r0: int, c0: int, i: int)
    requires Square(g, n) && DiagStart(n, r0, c0) && RunAt(DiagMarks(g, n, r0, c0), mark, k, i)
    ensures DiagRun(g, n, mark, k, r0 + i, c0 + i)
  {
    var s := DiagMarks(g, n, r0, c0);
    forall x | r0 + i <= x < r0 + i + k
      ensures g[x][c0 + i + (x - (r0 + i))] == mark
    {
      assert s[x - r0] == mark;
    }
  }

  /** Every down-right run lies on the line of one start of the
      right-diagonal scan. */
  lemma DiagRunLine(g: Grid, n: int, mark: Mark, k: int, r: int, c: int) returns (r0: int, c0: int)
    requires Square(g, n) && DiagRun(g, n, mark, k, r, c) && k >= 1
    ensures DiagStart(n, r0, c0) && RunAt(DiagMarks(g, n, r0, c0), mark, k, r - r0)
  {
    r0, c0 := if c >= r then 0 else r - c, if c >= r then c - r else 0;
    var s := DiagMarks(g, n, r0, c0);
    forall j | r - r0 <= j < r - r0 + k
      ensures s[j] == mark
    {
      assert g[r0 + j][c + (r0 + j - r)] == mark;
    }
  }

  /** The right-diagonal scan fires exactly when some down-right diagonal
      holds a streak: its start cells reach every such diagonal. */
  lemma DiagonalsWin(g: Grid, n: int, mark: Mark, k: int)
    requires Square(g, n) && k >= 1
    ensures DiagScanned(g, n, mark, k, n, n) <==> (exists r, c :: DiagRun(g, n, mark, k, r, c))
  {
    if DiagScanned(g, n, mark, k, n, n) {
      var r0, c0 :| DiagStart(n, r0, c0) && Fires(DiagMarks(g, n, r0, c0), mark, k);
      FiresIffRun(DiagMarks(g, n, r0, c0), mark, k);
      var i :| RunAt(DiagMarks(g, n, r0, c0), mark, k, i);
      DiagLineRun(g, n, mark, k, r0, c0, i);
    }
    if exists r, c :: DiagRun(g, n, mark, k, r, c) {
      var r, c :| DiagRun(g, n, mark, k, r, c);
      var r0, c0 := DiagRunLine(g, n, mark, k, r, c);
      FiresIffRun(DiagMarks(g, n, r0, c0), mark, k);
      assert DiagStart(n, r0, c0) && r0 < n && Fires(DiagMarks(g, n, r0, c0), mark, k);
    }
  }

  /** A board of blank cells has no streak of a player's mark. */
  lemma EmptyHasNoWinner(n: nat, mark: Mark, k: int)
    requires mark != Blank
    ensures !Wins(Empty(n), n, mark, k)
  {
    var g := Empty(n);
    if k >= 1 {
      forall r, c
        ensures !(RowRun(g, n, mark, k, r, c) || ColRun(g, n, mark, k, r, c)
                  || DiagRun(g, n, mark, k, r, c) || AntiRun(g, n, mark, k, r, c))
      {
        if 0 <= r < n && 0 <= c < n {
          assert g[r][c] == Blank;
        }
      }
    }
  }

  /** Putting one player's mark on the board gives the other player no new
      streak: a streak of `other` never passes through the changed cell. */
  lemma OtherMarkGivesNoWin(g: Grid, n: int, row: int, col: int, mark: Mark, other: Mark, k: int)
    requires Square(g, n) && 0 <= row < n && 0 <= col < n && mark != other
    ensures Square(Place(g, row, col, mark), n)
    ensures Wins(Place(g, row, col, mark), n, other, k) ==> Wins(g, n, other, k)
  {
    var h := Place(g, row, col, mark);
    forall i, j | 0 <= i < n && 0 <= j < n && h[i][j] == other
      ensures g[i][j] == other
    {
    }
    if Wins(h, n, other, k) {
      var r, c :| RowRun(h, n, other, k, r, c) || ColRun(h, n, other, k, r, c)
               || DiagRun(h, n, other, k, r, c) || AntiRun(h, n, other, k, r, c);
      if RowRun(h, n, other, k, r, c) {
        assert RowRun(g, n, other, k, r, c);
      } else if ColRun(h, n, other, k, r, c) {
        assert ColRun(g, n, other, k, r, c);
      } else if DiagRun(h, n, other, k, r, c) {
        assert DiagRun(g, n, other, k, r, c);
      } else {
        assert AntiRun(g, n, other, k, r, c);
      }
    }
  }

  /** The four scans together fire exactly when the mark has a winning
      streak. */
  lemma ScansFindWins(g: Grid, n: int, mark: Mark, k: int)
    requires Square(g, n) && k >= 1
    ensures Wins(g, n, mark, k)
        <==> StraightScanned(g, n, mark, k, true, n) || StraightScanned(g, n, mark, k, false, n)
             || AntiScanned(g, n, mark, k, n, 0) || DiagScanned(g, n, mark, k, n, n)
  {
    RowsWin(g, n, mark, k);
    ColumnsWin(g, n, mark, k);
    AntiDiagonalsWin(g, n, mark, k);
    DiagonalsWin(g, n, mark, k);
  }
}
