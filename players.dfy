/** The computer players of the tic-tac-toe engine (ex1/GeniusPlayer.java,
    ex1/CleverPlayer.java) and the move every player makes: one blank
    cell of the board receives the player's mark. */
module Players {
  import opened Basics
  import opened Boards

  /** `after` is `before` with the blank cell (row, col) set to `mark`. */
  ghost predicate Marked(before: Grid, after: Grid, row: int, col: int, mark: Mark) {
    0 <= row < |before| && 0 <= col < |before[row]| && before[row][col] == Blank
    && after == Place(before, row, col, mark)
  }

  /** The leftmost blank cell of a row. */
  function RowFirstBlank(s: seq<Mark>): (c: Option<int>)
    ensures c.Some? ==> 0 <= c.value < |s| && s[c.value] == Blank
                        && forall j :: 0 <= j < c.value ==> s[j] != Blank
    ensures c.None? ==> forall j :: 0 <= j < |s| ==> s[j] != Blank
  {
    if s == [] then None
    else if s[0] == Blank then Some(0)
    else match RowFirstBlank(s[1..])
      case None => None
      case Some(c) => Some(c + 1)
  }

  /** The first blank cell in row-major order among rows `from` onwards. */
  function FirstBlankFrom(g: Grid, from: nat): (p: Option<(int, int)>)
    decreases |g| - from
    ensures p.Some? ==>
      from <= p.value.0 < |g| && 0 <= p.value.1 < |g[p.value.0]| && g[p.value.0][p.value.1] == Blank
      && (forall r, c :: from <= r < p.value.0 && 0 <= c < |g[r]| ==> g[r][c] != Blank)
      && (forall c :: 0 <= c < p.value.1 ==> g[p.value.0][c] != Blank)
    ensures p.None? ==> forall r, c :: from <= r < |g| && 0 <= c < |g[r]| ==> g[r][c] != Blank
  {
    if from >= |g| then None
    else match RowFirstBlank(g[from])
      case Some(c) => Some((from, c))
      case None => FirstBlankFrom(g, from + 1)
  }

  /** A blank cell with no blank cell before it in row-major order is the
      first blank cell. */
  lemma FirstBlankIs(g: Grid, row: int, col: int)
    requires 0 <= row < |g| && 0 <= col < |g[row]| && g[row][col] == Blank
    requires forall r, c :: 0 <= r < row && 0 <= c < |g[r]| ==> g[r][c] != Blank
    requires forall c :: 0 <= c < col ==> g[row][c] != Blank
    ensures FirstBlankFrom(g, 0) == Some((row, col))
  {
    var p := FirstBlankFrom(g, 0);
    if p.Some? && p.value.0 == row {
      assert p.value.1 == col;
    }
  }

  /** There is a first blank cell exactly when the board has a blank cell. */
  lemma FirstBlankExists(g: Grid)
    ensures FirstBlankFrom(g, 0).Some? <==> Blanks(g) > 0
  {
    if FirstBlankFrom(g, 0).None? {
      NoBlankCells(g);
    } else {
      var p := FirstBlankFrom(g, 0).value;
      if Blanks(g) == 0 {
        BlanksCountCell(g, p.0, p.1);
      }
    }
  }

  /** A blank cell counts towards the blank cells of the grid. */
  lemma {:induction false} BlanksCountCell(g: Grid, row: int, col: int)
    requires 0 <= row < |g| && 0 <= col < |g[row]| && g[row][col] == Blank
    ensures Blanks(g) > 0
  {
    if row < |g| - 1 {
      BlanksCountCell(g[..|g| - 1], row, col);
    } else {
      RowBlanksCountCell(g[row], col);
    }
  }

  lemma {:induction false} RowBlanksCountCell(s: seq<Mark>, col: int)
    requires 0 <= col < |s| && s[col] == Blank
    ensures RowBlanks(s) > 0
  {
    if col < |s| - 1 {
      RowBlanksCountCell(s[..|s| - 1], col);
    }
  }

  /** Marks the first blank cell in row-major order, if there is one, and
      returns it (the loop of markEmptyCell, shared by both players). */
  method MarkFirstBlank(board: Board, mark: Mark) returns (cell: Option<(int, int)>)
    requires board.Valid()
    modifies board.cells
    ensures cell == FirstBlankFrom(old(board.Contents()), 0)
    ensures cell.Some? ==> Marked(old(board.Contents()), board.Contents(), cell.value.0, cell.value.1, mark)
    ensures cell.None? ==> board.Contents() == old(board.Contents())
  {
    ghost var g := board.Contents();
    var boardSize := board.size;
    for row := 0 to boardSize
      invariant board.Contents() == g
      invariant forall r, c :: 0 <= r < row && 0 <= c < boardSize ==> g[r][c] != Blank
    {
      for col := 0 to boardSize
        invariant board.Contents() == g
        invariant forall c :: 0 <= c < col ==> g[row][c] != Blank
      {
        if board.GetMark(row, col) == Blank {
          var _ := board.PutMark(mark, row, col);
          FirstBlankIs(g, row, col);
          return Some((row, col));
        }
      }
    }
    NoBlankCells(g);
    FirstBlankExists(g);
    return None;
  }

  /** The cell a genius player marks: on a new run the first blank cell;
      otherwise the cell below its last mark when that one is on the board
      and blank, and failing that the first blank cell. */
  function GeniusTarget(g: Grid, newRun: bool, lastRow: int, lastCol: int): (t: Option<(int, int)>)
    ensures t.Some? ==> 0 <= t.value.0 < |g| && 0 <= t.value.1 < |g[t.value.0]| && g[t.value.0][t.value.1] == Blank
    ensures t.Some? <==> Blanks(g) > 0
  {
    FirstBlankExists(g);
    if !newRun && 0 <= lastRow + 1 < |g| && 0 <= lastCol < |g[lastRow + 1]| && g[lastRow + 1][lastCol] == Blank then
      BlanksCountCell(g, lastRow + 1, lastCol);
      Some((lastRow + 1, lastCol))
    else
      FirstBlankFrom(g, 0)
  }

  /** A player that fills the first blank cell and then runs down its
      column (ex1/GeniusPlayer.java). */
  class GeniusPlayer {
    /** The mark of the current run; None before the first turn. */
    var currentMark: Option<Mark>
    var lastRowMarked: int
    var lastColMarked: int

    constructor ()
      ensures currentMark == None && lastRowMarked == 0 && lastColMarked == 0
    {
      currentMark := None;
      lastRowMarked := 0;
      lastColMarked := 0;
    }

    /** Plays one turn with `mark`: the target cell, if there is one,
        receives the mark and becomes the last marked cell. */
    method PlayTurn(board: Board, mark: Mark)
      requires board.Valid()
      modifies this, board.cells
      ensures currentMark == Some(mark)
      ensures var t := GeniusTarget(old(board.Contents()), old(currentMark) != Some(mark), old(lastRowMarked), old(lastColMarked));
        if t.Some? then
          Marked(old(board.Contents()), board.Contents(), t.value.0, t.value.1, mark)
          && lastRowMarked == t.value.0 && lastColMarked == t.value.1
        else
          board.Contents() == old(board.Contents())
          && lastRowMarked == old(lastRowMarked) && lastColMarked == old(lastColMarked)
    {
      var newRun := CheckNewRun(mark);
      if newRun {
        MarkEmptyCell(board, mark);
      } else {
        NextMark(mark, board);
      }
    }

    /** Marks the first blank cell and records it (markEmptyCell). */
    method MarkEmptyCell(board: Board, mark: Mark)
      requires board.Valid()
      modifies board.cells, this`lastRowMarked, this`lastColMarked
      ensures var t := FirstBlankFrom(old(board.Contents()), 0);
        if t.Some? then
          Marked(old(board.Contents()), board.Contents(), t.value.0, t.value.1, mark)
          && lastRowMarked == t.value.0 && lastColMarked == t.value.1
        else
          board.Contents() == old(board.Contents())
          && lastRowMarked == old(lastRowMarked) && lastColMarked == old(lastColMarked)
    {
      var cell := MarkFirstBlank(board, mark);
      if cell.Some? {
        lastRowMarked := cell.value.0;
        lastColMarked := cell.value.1;
      }
    }

    /** Tries the cell below the last mark, and otherwise marks the first
        blank cell (NextMark). */
    method NextMark(mark: Mark, board: Board)
      requires board.Valid()
      modifies board.cells, this`lastRowMarked, this`lastColMarked
      ensures var t := GeniusTarget(old(board.Contents()), false, old(lastRowMarked), old(lastColMarked));
        if t.Some? then
          Marked(old(board.Contents()), board.Contents(), t.value.0, t.value.1, mark)
          && lastRowMarked == t.value.0 && lastColMarked == t.value.1
        else
          board.Contents() == old(board.Contents())
          && lastRowMarked == old(lastRowMarked) && lastColMarked == old(lastColMarked)
    {
      var placed := board.PutMark(mark, lastRowMarked + 1, lastColMarked);
      if placed {
        lastRowMarked := lastRowMarked + 1;
      } else {
        MarkEmptyCell(board, mark);
      }
    }

    /** A turn whose mark differs from the run's (or the first turn)
        starts a new run with that mark (checkNewRun). */
    method CheckNewRun(mark: Mark) returns (newRun: bool)
      modifies this`currentMark
      ensures newRun <==> old(currentMark) != Some(mark)
      ensures currentMark == Some(mark)
    {
      if currentMark.None? || mark != currentMark.value {
        currentMark := Some(mark);
        return true;
      }
      return false;
    }
  }

  /** The cell to the right of (row, col) is on the board and blank. */
  ghost predicate RightFree(g: Grid, row: int, col: int) {
    0 <= row < |g| && 0 <= col + 1 < |g[row]| && g[row][col + 1] == Blank
  }

  /** A player that fills the first blank cell and then runs along its
      row, falling back to a random blank cell (ex1/CleverPlayer.java). */
  class CleverPlayer {
    /** The mark of the current run; None before the first turn. */
    var currentMark: Option<Mark>
    var lastRowMarked: int
    var lastColMarked: int

    constructor ()
      ensures currentMark == None && lastRowMarked == 0 && lastColMarked == 0
    {
      currentMark := None;
      lastRowMarked := 0;
      lastColMarked := 0;
    }

    /** Plays one turn with `mark`. A new run marks the first blank cell;
        a continued run marks the cell to the right of the last mark when
        it is free and otherwise some blank cell, which must exist. */
    method PlayTurn(board: Board, mark: Mark)
      requires board.Valid()
      requires currentMark != Some(mark) || Blanks(board.Contents()) > 0
      modifies this, board.cells
      ensures currentMark == Some(mark)
      ensures old(currentMark) != Some(mark) ==>
        var t := FirstBlankFrom(old(board.Contents()), 0);
        if t.Some? then
          Marked(old(board.Contents()), board.Contents(), t.value.0, t.value.1, mark)
          && lastRowMarked == t.value.0 && lastColMarked == t.value.1
        else
          board.Contents() == old(board.Contents())
          && lastRowMarked == old(lastRowMarked) && lastColMarked == old(lastColMarked)
      ensures old(currentMark) == Some(mark) ==>
        Marked(old(board.Contents()), board.Contents(), lastRowMarked, lastColMarked, mark)
        && (RightFree(old(board.Contents()), old(lastRowMarked), old(lastColMarked)) ==>
              lastRowMarked == old(lastRowMarked) && lastColMarked == old(lastColMarked) + 1)
    {
      var newRun := CheckNewRun(mark);
      if newRun {
        MarkEmptyCell(board, mark);
      } else {
        NextMark(mark, board);
      }
    }

    /** Marks some blank cell and records it (markRandomEmptyCell): the
        random draws are retried until one lands on a blank cell, so any
        blank cell can be the one marked. */
    method MarkRandomEmptyCell(board: Board, mark: Mark)
      requires board.Valid() && Blanks(board.Contents()) > 0
      modifies board.cells, this`lastRowMarked, this`lastColMarked
      ensures Marked(old(board.Contents()), board.Contents(), lastRowMarked, lastColMarked, mark)
    {
      var boardSize := board.size;
      ghost var r0, c0 := BlankExists(board.Contents());
      assert board.GetMark(r0, c0) == Blank;
      var row, col :| 0 <= row < boardSize && 0 <= col < boardSize && board.GetMark(row, col) == Blank;
      ghost var before := board.Contents();
      assert board.GetMark(row, col) == Blank;
      assert board.InRange(row, col);
      assert board.Contents()[row][col] == Blank;
      assert before[row][col] == Blank;
      var placed := board.PutMark(mark, row, col);
      assert placed && Marked(before, board.Contents(), row, col, mark);
      lastRowMarked := row;
      lastColMarked := col;
    }

    /** Tries the cell to the right of the last mark, and otherwise marks
        a random blank cell (NextMark). */
    method NextMark(mark: Mark, board: Board)
      requires board.Valid() && Blanks(board.Contents()) > 0
      modifies board.cells, this`lastRowMarked, this`lastColMarked
      ensures Marked(old(board.Contents()), board.Contents(), lastRowMarked, lastColMarked, mark)
      ensures RightFree(old(board.Contents()), old(lastRowMarked), old(lastColMarked)) ==>
        lastRowMarked == old(lastRowMarked) && lastColMarked == old(lastColMarked) + 1
    {
      var placed := board.PutMark(mark, lastRowMarked, lastColMarked + 1);
      if placed {
        lastColMarked := lastColMarked + 1;
      } else {
        MarkRandomEmptyCell(board, mark);
      }
    }

    /** Marks the first blank cell and records it (markEmptyCell). */
    method MarkEmptyCell(board: Board, mark: Mark)
      requires board.Valid()
      modifies board.cells, this`lastRowMarked, this`lastColMarked
      ensures var t := FirstBlankFrom(old(board.Contents()), 0);
        if t.Some? then
          Marked(old(board.Contents()), board.Contents(), t.value.0, t.value.1, mark)
          && lastRowMarked == t.value.0 && lastColMarked == t.value.1
        else
          board.Contents() == old(board.Contents())
          && lastRowMarked == old(lastRowMarked) && lastColMarked == old(lastColMarked)
    {
      var cell := MarkFirstBlank(board, mark);
      if cell.Some? {
        lastRowMarked := cell.value.0;
        lastColMarked := cell.value.1;
      }
    }

    /** A turn whose mark differs from the run's (or the first turn)
        starts a new run with that mark (checkNewRun). */
    method CheckNewRun(mark: Mark) returns (newRun: bool)
      modifies this`currentMark
      ensures newRun <==> old(currentMark) != Some(mark)
      ensures currentMark == Some(mark)
    {
      if currentMark.None? || mark != currentMark.value {
        currentMark := Some(mark);
        return true;
      }
      return false;
    }
  }

  /** The players a game can seat (the Player interface, for its
      computer implementations). */
  datatype Player = Genius(genius: GeniusPlayer) | Clever(clever: CleverPlayer)

  /** The object a player's turn updates. */
  function Self(p: Player): set<object> {
    match p
    case Genius(x) => {x}
    case Clever(x) => {x}
  }

  /** One turn of either player (playTurn): on a board with a blank cell,
      exactly one blank cell receives the mark and nothing else changes. */
  method PlayTurn(p: Player, board: Board, mark: Mark) returns (ghost row: int, ghost col: int)
    requires board.Valid() && Blanks(board.Contents()) > 0
    modifies Self(p), board.cells
    ensures Marked(old(board.Contents()), board.Contents(), row, col, mark)
  {
    match p
    case Genius(x) =>
      var t := GeniusTarget(board.Contents(), x.currentMark != Some(mark), x.lastRowMarked, x.lastColMarked);
      x.PlayTurn(board, mark);
      row, col := t.value.0, t.value.1;
    case Clever(x) =>
      FirstBlankExists(board.Contents());
      x.PlayTurn(board, mark);
      row, col := x.lastRowMarked, x.lastColMarked;
  }
}
