/** One tic-tac-toe game (ex1/Game.java): two players take turns until one
    of them has a streak of the winning length or the board is full. */
module Games {
  import opened Basics
  import opened Boards
  import opened Streaks
  import opened Lines
  import opened Players

  /** The streak length a custom game plays to (checkStreakValidity): a
      requested length below 2 or above the board's size gives way to the
      size. */
  function CheckStreakValidity(winStreak: int, size: int): (k: int)
    ensures k == winStreak || k == size
    ensures size >= 2 ==> 2 <= k <= size
    ensures 2 <= winStreak <= size ==> k == winStreak
    ensures winStreak < 2 || winStreak > size ==> k == size
  {
    if winStreak < 2 || winStreak > size then size else winStreak
  }

  class Game {
    const playerX: Player
    const playerO: Player
    const board: Board
    /** The number of consecutive marks that wins. */
    const winStreak: int
    /** The running counter of the line being scanned. */
    var currentStreak: int
    /** The number of moves left before the board is full. */
    var blankCells: int
    /** Whether a scan has found a winning streak. */
    var winner: bool

    ghost predicate Valid()
      reads board
    {
      board.Valid() && 0 <= winStreak <= board.size && (board.size >= 1 ==> winStreak >= 1)
    }

    /** The default game: a 4 x 4 board played to a streak of 3. */
    constructor Default(playerX: Player, playerO: Player)
      ensures Valid() && fresh(board) && fresh(board.cells)
      ensures this.playerX == playerX && this.playerO == playerO
      ensures board.size == DefaultBoardSize && winStreak == DefaultBoardSize - 1
      ensures board.Contents() == Empty(board.size) && blankCells == board.size * board.size && !winner
    {
      this.playerX := playerX;
      this.playerO := playerO;
      var b := new Board.Default();
      board := b;
      winStreak := b.size - 1;
      blankCells := b.size * b.size;
      currentStreak := 0;
      winner := false;
    }

    /** A game on a size x size board, played to the requested streak
        length when that lies between 2 and the size, and to the size
        otherwise. */
    constructor (playerX: Player, playerO: Player, size: int, winStreak: int)
      requires size >= 0
      ensures Valid() && fresh(board) && fresh(board.cells)
      ensures this.playerX == playerX && this.playerO == playerO
      ensures board.size == size && this.winStreak == CheckStreakValidity(winStreak, size)
      ensures board.Contents() == Empty(size) && blankCells == size * size && !winner
    {
      this.playerX := playerX;
      this.playerO := playerO;
      var b := new Board(size);
      board := b;
      this.winStreak := CheckStreakValidity(winStreak, size);
      blankCells := size * size;
      currentStreak := 0;
      winner := false;
    }

    /** Counts one cell of the line being scanned (checkStreakLength): a
        cell holding `mark` extends the streak, and the game is won when
        the streak then equals the winning length; any other cell resets
        it. */
    method CheckStreakLength(mark: Mark, row: int, col: int)
      requires board.Valid()
      modifies this`currentStreak, this`winner
      ensures currentStreak == if board.GetMark(row, col) == mark then old(currentStreak) + 1 else 0
      ensures winner == (old(winner) || (board.GetMark(row, col) == mark && currentStreak == winStreak))
    {
      if mark == board.GetMark(row, col) {
        currentStreak := currentStreak + 1;
        if currentStreak == winStreak {
          winner := true;
        }
      } else {
        currentStreak := 0;
      }
    }

    /** Walks one row or column from its first cell (the inner loop of
        checkStraightStreak). */
    method CheckStraightLine(mark: Mark, line: int, lineDirection: bool)
      requires Valid() && 0 <= line < board.size && currentStreak == 0
      modifies this`currentStreak, this`winner
      ensures winner == (old(winner) || Fires(StraightMarks(board.Contents(), board.size, lineDirection, line), mark, winStreak))
    {
      ghost var s := StraightMarks(board.Contents(), board.size, lineDirection, line);
            for col := 0 to board.size
        invariant Walked(s, col, mark, winStreak, currentStreak, winner, old(winner))
      {
        if lineDirection {
          assert board.GetMark(line, col) == s[col];
          CheckStreakLength(mark, line, col);
        } else {
          assert board.GetMark(col, line) == s[col];
          CheckStreakLength(mark, col, line);
        }
      }
    }

    /** Scans every row, or every column when lineDirection is false
        (checkStraightStreak), restarting the streak on each. */
    method CheckStraightStreak(mark: Mark, lineDirection: bool)
      requires Valid()
      modifies this`currentStreak, this`winner
      ensures winner == (old(winner) || StraightScanned(board.Contents(), board.size, mark, winStreak, lineDirection, board.size))
    {
      ghost var g := board.Contents();
      for row := 0 to board.size
        invariant winner == (old(winner) || StraightScanned(g, board.size, mark, winStreak, lineDirection, row))
      {
        currentStreak := 0;
        CheckStraightLine(mark, row, lineDirection);
        StraightScanStep(g, board.size, mark, winStreak, lineDirection, row);
      }
    }

    /** Walks one down-left diagonal from (row, col) to the board's edge
        (the innermost loop of checkLeftDiagonalStreak). */
    method CheckLeftDiagonalLine(mark: Mark, boardLimit: int, row: int, col: int)
      requires Valid() && boardLimit == board.size - 1
      requires 0 <= row < board.size && 0 <= col < board.size && currentStreak == 0
      modifies this`currentStreak, this`winner
      ensures winner == (old(winner) || Fires(AntiMarks(board.Contents(), board.size, row, col), mark, winStreak))
    {
      ghost var s := AntiMarks(board.Contents(), board.size, row, col);
      var tempRow := row;
      var tempCol := col;
      ghost var i := 0;
      while tempRow <= boardLimit && tempCol >= 0
        invariant 0 <= i && tempRow == row + i && tempCol == col - i
        invariant Walked(s, i, mark, winStreak, currentStreak, winner, old(winner))
        decreases boardLimit - tempRow
      {
        ghost var m, streak, fired := board.GetMark(tempRow, tempCol), currentStreak, winner;
        assert m == s[i];
        CheckStreakLength(mark, tempRow, tempCol);
        CountCell(s, i, mark, winStreak, m, streak, fired, currentStreak, winner, old(winner));
        tempRow := tempRow + 1;
        tempCol := tempCol - 1;
        i := i + 1;
      }
      assert i == |s|;
    }

    /** Scans every down-left diagonal (checkLeftDiagonalStreak): one from
        each cell of the top row, then one from each cell of the right
        column below it. */
    method CheckLeftDiagonalStreak(mark: Mark)
      requires Valid()
      modifies this`currentStreak, this`winner
      ensures winner == (old(winner) || AntiScanned(board.Contents(), board.size, mark, winStreak, board.size, 0))
    {
      ghost var g := board.Contents();
      var startingCol;
      var boardLimit := board.size - 1;
      for row := 0 to boardLimit + 1
        invariant winner == (old(winner) || AntiScanned(g, board.size, mark, winStreak, row, 0))
      {
        if row == 0 {
          startingCol := 0;
        } else {
          startingCol := boardLimit;
        }
        AntiScanSkip(g, board.size, mark, winStreak, row);
        for col := startingCol to boardLimit + 1
          invariant winner == (old(winner) || AntiScanned(g, board.size, mark, winStreak, row, col))
        {
          currentStreak := 0;
          CheckLeftDiagonalLine(mark, boardLimit, row, col);
          AntiScanStep(g, board.size, mark, winStreak, row, col);
        }
      }
    }

    /** Walks one down-right diagonal from (row, col) to the board's edge
        (the innermost loop of checkRightDiagonalStreak). */
    method CheckRightDiagonalLine(mark: Mark, boardLimit: int, row: int, col: int)
      requires Valid() && boardLimit == board.size - 1
      requires 0 <= row < board.size && 0 <= col < board.size && currentStreak == 0
      modifies this`currentStreak, this`winner
      ensures winner == (old(winner) || Fires(DiagMarks(board.Contents(), board.size, row, col), mark, winStreak))
    {
      ghost var s := DiagMarks(board.Contents(), board.size, row, col);
      var tempRow := row;
      var tempCol := col;
      ghost var i := 0;
      while tempRow <= boardLimit && tempCol <= boardLimit
        invariant 0 <= i && tempRow == row + i && tempCol == col + i
        invariant Walked(s, i, mark, winStreak, currentStreak, winner, old(winner))
        decreases boardLimit - tempRow
      {
        ghost var m, streak, fired := board.GetMark(tempRow, tempCol), currentStreak, winner;
        assert m == s[i];
        CheckStreakLength(mark, tempRow, tempCol);
        CountCell(s, i, mark, winStreak, m, streak, fired, currentStreak, winner, old(winner));
        tempRow := tempRow + 1;
        tempCol := tempCol + 1;
        i := i + 1;
      }
      assert i == |s|;
    }

    /** Scans every down-right diagonal (checkRightDiagonalStreak): one
        from each cell of the top row, right to left, then one from each
        cell of the left column below it. */
    method CheckRightDiagonalStreak(mark: Mark)
      requires Valid()
      modifies this`currentStreak, this`winner
      ensures winner == (old(winner) || DiagScanned(board.Contents(), board.size, mark, winStreak, board.size, board.size))
    {
      ghost var g := board.Contents();
      var startingCol;
      var boardLimit := board.size - 1;
      for row := 0 to boardLimit + 1
        invariant winner == (old(winner) || DiagScanned(g, board.size, mark, winStreak, row, board.size))
      {
        if row == 0 {
          startingCol := boardLimit;
        } else {
          startingCol := 0;
        }
        DiagScanSkip(g, board.size, mark, winStreak, row);
        for col := startingCol + 1 downto 0
          invariant winner == (old(winner) || DiagScanned(g, board.size, mark, winStreak, row, col))
        {
          currentStreak := 0;
          CheckRightDiagonalLine(mark, boardLimit, row, col);
          DiagScanStep(g, board.size, mark, winStreak, row, col);
        }
      }
    }

    /** Scans every line for a streak of `mark` (checkAllLinesStreak): the
        game is won afterwards exactly when it was won before or `mark`
        now has a winning streak. */
    method CheckAllLinesStreak(mark: Mark)
      requires Valid()
      modifies this`currentStreak, this`winner
      ensures winner == (old(winner) || Wins(board.Contents(), board.size, mark, winStreak))
    {
      CheckStraightStreak(mark, true);
      CheckStraightStreak(mark, false);
      CheckLeftDiagonalStreak(mark);
      CheckRightDiagonalStreak(mark);
      if winStreak >= 1 {
        ScansFindWins(board.Contents(), board.size, mark, winStreak);
      }
    }

    /** The game's verdict after `mark` moved (endGameCheck): the mover
        when the game is won, a draw when no move is left, and nothing
        while the game goes on. A win takes precedence over a draw. */
    function EndGameCheck(mark: Mark): (r: Option<Mark>)
      requires mark != Blank
      reads this
      ensures r.Some? <==> winner || blankCells == 0
      ensures winner ==> r == Some(mark)
      ensures r == Some(Blank) ==> !winner
      ensures !winner && blankCells == 0 ==> r == Some(Blank)
    {
      if winner then Some(mark) else if blankCells == 0 then Some(Blank) else None
    }

    /** Plays the game (run): X and O move in turn, each move followed by
        a full scan, until one of them has a winning streak or the board
        is full. The result is the winner, or the blank mark for a draw. */
    method Run() returns (result: Mark)
      requires Valid() && board.size >= 1
      requires board.Contents() == Empty(board.size) && blankCells == board.size * board.size && !winner
      modifies this`currentStreak, this`winner, this`blankCells, board.cells, Self(playerX), Self(playerO)
      ensures winner <==> result != Blank
      ensures result != Blank ==> Wins(board.Contents(), board.size, result, winStreak)
      ensures result == X ==> !Wins(board.Contents(), board.size, O, winStreak)
      ensures result == O ==> !Wins(board.Contents(), board.size, X, winStreak)
      ensures result == Blank ==> Blanks(board.Contents()) == 0
                                  && !Wins(board.Contents(), board.size, X, winStreak)
                                  && !Wins(board.Contents(), board.size, O, winStreak)
    {
      EmptyBlanks(board.size);
      EmptyHasNoWinner(board.size, X, winStreak);
      EmptyHasNoWinner(board.size, O, winStreak);
      while true
        invariant Valid()
        invariant blankCells == Blanks(board.Contents()) && blankCells >= 1 && !winner
        invariant !Wins(board.Contents(), board.size, X, winStreak)
        invariant !Wins(board.Contents(), board.size, O, winStreak)
        decreases blankCells
      {
        var end := Turn(playerX, X, O);
        if end.Some? {
          return end.value;
        }
        end := Turn(playerO, O, X);
        if end.Some? {
          return end.value;
        }
      }
    }

    /** One turn of `player` with `mark` in run: the move, the count of
        moves left, the scan and the verdict, None while the game goes on. */
    method Turn(player: Player, mark: Mark, other: Mark) returns (end: Option<Mark>)
      requires Valid() && mark != Blank && other != Blank && mark != other
      requires blankCells == Blanks(board.Contents()) && blankCells >= 1 && !winner
      requires !Wins(board.Contents(), board.size, mark, winStreak)
      requires !Wins(board.Contents(), board.size, other, winStreak)
      modifies this`currentStreak, this`winner, this`blankCells, board.cells, Self(player)
      ensures blankCells == Blanks(board.Contents()) == old(blankCells) - 1
      ensures winner == Wins(board.Contents(), board.size, mark, winStreak)
      ensures end == EndGameCheck(mark)
      ensures !Wins(board.Contents(), board.size, other, winStreak)
    {
      ghost var before := board.Contents();
      ghost var row, col := PlayTurn(player, board, mark);
      PlaceBlanks(before, row, col, mark);
      OtherMarkGivesNoWin(before, board.size, row, col, mark, other, winStreak);
      blankCells := blankCells - 1;
      CheckAllLinesStreak(mark);
      end := EndGameCheck(mark);
    }
  }
}
