/** The tic-tac-toe board (ex1/Board.java): a square grid of marks that a
    mark can only be put on when the cell is inside the board and blank. */
module Boards {

  datatype Mark = Blank | X | O

  const DefaultBoardSize := 4

  /** A board's contents as rows of marks. */
  type Grid = seq<seq<Mark>>

  /** `g` has n rows of n marks. */
  ghost predicate Square(g: Grid, n: int) {
    n >= 0 && |g| == n && forall r :: 0 <= r < n ==> |g[r]| == n
  }

  /** The n x n grid of blank cells. */
  function Empty(n: nat): (g: Grid)
    ensures Square(g, n)
  {
    seq(n, _ => seq(n, _ => Blank))
  }

  /** `g` with the cell at (row, col) set to mark. */
  function Place(g: Grid, row: int, col: int, mark: Mark): (h: Grid)
    requires 0 <= row < |g| && 0 <= col < |g[row]|
    ensures |h| == |g| && forall r :: 0 <= r < |g| ==> |h[r]| == |g[r]|
  {
    g[row := g[row][col := mark]]
  }

  /** The number of blank cells in a row. */
  function RowBlanks(row: seq<Mark>): (b: nat)
    ensures b <= |row|
  {
    if row == [] then 0 else RowBlanks(row[..|row| - 1]) + (if row[|row| - 1] == Blank then 1 else 0)
  }

  /** The number of blank cells of the grid. */
  function Blanks(g: Grid): nat {
    if g == [] then 0 else Blanks(g[..|g| - 1]) + RowBlanks(g[|g| - 1])
  }

  lemma {:induction false} RowBlanksAllBlank(n: nat)
    ensures RowBlanks(seq(n, _ => Blank)) == n
  {
    if n > 0 {
      assert seq(n, _ => Blank)[..n - 1] == seq(n - 1, _ => Blank);
      RowBlanksAllBlank(n - 1);
    }
  }

  /** An empty n x n board has n * n blank cells. */
  lemma {:induction false} EmptyBlanks(n: nat)
    ensures Blanks(Empty(n)) == n * n
  {
    RowBlanksAllBlank(n);
    EmptyRowsBlanks(n, n);
  }

  lemma {:induction false} EmptyRowsBlanks(n: nat, m: nat)
    requires RowBlanks(seq(n, _ => Blank)) == n
    ensures Blanks(seq(m, _ => seq(n, _ => Blank))) == m * n
  {
    if m > 0 {
      assert seq(m, _ => seq(n, _ => Blank))[..m - 1] == seq(m - 1, _ => seq(n, _ => Blank));
      EmptyRowsBlanks(n, m - 1);
    }
  }

  /** Writing a non-blank mark on a blank cell of a row removes one blank. */
  lemma {:induction false} RowPlaceBlanks(row: seq<Mark>, col: int, mark: Mark)
    requires 0 <= col < |row| && row[col] == Blank && mark != Blank
    ensures RowBlanks(row[col := mark]) == RowBlanks(row) - 1
  {
    if col < |row| - 1 {
      assert row[col := mark][..|row| - 1] == row[..|row| - 1][col := mark];
      RowPlaceBlanks(row[..|row| - 1], col, mark);
    } else {
      assert row[col := mark][..|row| - 1] == row[..|row| - 1];
    }
  }

  /** Writing a non-blank mark on a blank cell removes exactly one blank. */
  lemma {:induction false} PlaceBlanks(g: Grid, row: int, col: int, mark: Mark)
    requires 0 <= row < |g| && 0 <= col < |g[row]| && g[row][col] == Blank && mark != Blank
    ensures Blanks(Place(g, row, col, mark)) == Blanks(g) - 1
  {
    if row < |g| - 1 {
      assert Place(g, row, col, mark)[..|g| - 1] == Place(g[..|g| - 1], row, col, mark);
      PlaceBlanks(g[..|g| - 1], row, col, mark);
    } else {
      assert Place(g, row, col, mark)[..|g| - 1] == g[..|g| - 1];
      RowPlaceBlanks(g[row], col, mark);
    }
  }

  /** A grid with a blank count above zero has a blank cell. */
  lemma {:induction false} BlankExists(g: Grid) returns (row: int, col: int)
    requires Blanks(g) > 0
    ensures 0 <= row < |g| && 0 <= col < |g[row]| && g[row][col] == Blank
  {
    if Blanks(g[..|g| - 1]) > 0 {
      row, col := BlankExists(g[..|g| - 1]);
    } else {
      row := |g| - 1;
      col := RowBlankExists(g[row]);
    }
  }

  lemma {:induction false} RowBlankExists(s: seq<Mark>) returns (col: int)
    requires RowBlanks(s) > 0
    ensures 0 <= col < |s| && s[col] == Blank
  {
    if s[|s| - 1] == Blank {
      col := |s| - 1;
    } else {
      col := RowBlankExists(s[..|s| - 1]);
    }
  }

  /** A grid without blank cells has a blank count of zero. */
  lemma {:induction false} NoBlankCells(g: Grid)
    requires forall r, c :: 0 <= r < |g| && 0 <= c < |g[r]| ==> g[r][c] != Blank
    ensures Blanks(g) == 0
  {
    if Blanks(g) > 0 {
      var r, c := BlankExists(g);
    }
  }

  class Board {
    /** The side of the square board. */
    const size: int
    /** The marks, cells[row, col]. */
    const cells: array2<Mark>

    ghost predicate Valid()
      reads this
    {
      size >= 0 && cells.Length0 == size && cells.Length1 == size
    }

    /** The marks as a grid value. */
    ghost function Contents(): (g: Grid)
      requires Valid()
      reads this, cells
      ensures Square(g, size)
    {
      seq(size, r requires 0 <= r < size reads cells => seq(size, c requires 0 <= c < size reads cells => cells[r, c]))
    }

    /** The default board: 4 x 4, every cell blank. */
    constructor Default()
      ensures Valid() && fresh(cells) && size == DefaultBoardSize
      ensures Contents() == Empty(size)
    {
      size := DefaultBoardSize;
      cells := new Mark[DefaultBoardSize, DefaultBoardSize];
      new;
      InitializeBoard();
    }

    /** A size x size board, every cell blank. A negative size is refused
        when the array is allocated. */
    constructor (size: int)
      requires size >= 0
      ensures Valid() && fresh(cells) && this.size == size
      ensures Contents() == Empty(size)
    {
      this.size := size;
      cells := new Mark[size, size];
      new;
      InitializeBoard();
    }

    /** Fills every cell with the blank mark (initializeBoard). */
    method InitializeBoard()
      requires Valid()
      modifies cells
      ensures Contents() == Empty(size)
    {
      for i := 0 to size
        invariant forall r, c :: 0 <= r < i && 0 <= c < size ==> cells[r, c] == Blank
      {
        for j := 0 to size
          invariant forall r, c :: 0 <= r < i && 0 <= c < size ==> cells[r, c] == Blank
          invariant forall c :: 0 <= c < j ==> cells[i, c] == Blank
        {
          cells[i, j] := Blank;
        }
      }
      forall r | 0 <= r < size
        ensures Contents()[r] == Empty(size)[r]
      {
      }
    }

    /** Whether (row, col) lies on the board (checkCoordinates). */
    predicate InRange(row: int, col: int) {
      0 <= row < size && 0 <= col < size
    }

    /** The mark at (row, col), and the blank mark off the board (getMark). */
    function GetMark(row: int, col: int): (m: Mark)
      requires Valid()
      reads this, cells
      ensures m != Blank ==> InRange(row, col) && m == Contents()[row][col]
      ensures InRange(row, col) ==> m == Contents()[row][col]
    {
      if InRange(row, col) then cells[row, col] else Blank
    }

    /** Puts the mark on (row, col) when that cell is on the board and
        blank (putMark). It reports whether it did, and changes nothing
        else. */
    method PutMark(mark: Mark, row: int, col: int) returns (placed: bool)
      requires Valid()
      modifies cells
      ensures placed <==> InRange(row, col) && old(Contents())[row][col] == Blank
      ensures Contents() == if placed then Place(old(Contents()), row, col, mark) else old(Contents())
    {
      if InRange(row, col) {
        if GetMark(row, col) == Blank {
          ghost var before := Contents();
          cells[row, col] := mark;
          forall r | 0 <= r < size
            ensures Contents()[r] == Place(before, row, col, mark)[r]
          {
          }
          return true;
        }
      }
      return false;
    }
  }

  /** A non-blank cell is never overwritten: putting a mark changes only
      the cell it names, and only when that cell was blank. */
  lemma PlaceKeepsMarks(g: Grid, row: int, col: int, mark: Mark, r: int, c: int)
    requires 0 <= row < |g| && 0 <= col < |g[row]| && g[row][col] == Blank
    requires 0 <= r < |g| && 0 <= c < |g[r]| && g[r][c] != Blank
    ensures Place(g, row, col, mark)[r][c] == g[r][c]
  {
  }
}
