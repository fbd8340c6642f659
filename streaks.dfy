/** The running streak counter of the game's win check
    (ex1/Game.java, checkStreakLength), over the sequence of marks one line
    of the board holds: the counter counts consecutive cells of a mark and
    restarts at zero on any other cell, and the game is won when the
    counter, just after counting a cell, equals the winning streak. */
module Streaks {
  import opened Boards

  /** The value of the counter after the first n cells of a line `s`: the
      number of cells equal to `mark` that end that prefix. */
  function Trailing(s: seq<Mark>, n: int, mark: Mark): (t: nat)
    requires 0 <= n <= |s|
    ensures t <= n
  {
    if n == 0 || s[n - 1] != mark then 0 else Trailing(s, n - 1, mark) + 1
  }

  /** Whether the check has fired within the first n cells of `s`: at some
      cell equal to `mark` the counter reached exactly k. */
  predicate Reached(s: seq<Mark>, n: int, mark: Mark, k: int)
    requires 0 <= n <= |s|
  {
    n > 0 && (Reached(s, n - 1, mark, k) || (s[n - 1] == mark && Trailing(s, n, mark) == k))
  }

  /** Whether the check fires anywhere along the whole line. */
  predicate Fires(s: seq<Mark>, mark: Mark, k: int) {
    Reached(s, |s|, mark, k)
  }

  /** Cells i to i + k - 1 of `s` all hold `mark`. */
  ghost predicate RunAt(s: seq<Mark>, mark: Mark, k: int, i: int) {
    0 <= i && i + k <= |s| && forall j :: i <= j < i + k ==> s[j] == mark
  }

  /** The first n cells of `s` hold k consecutive cells of `mark`. */
  ghost predicate HasRun(s: seq<Mark>, n: int, mark: Mark, k: int) {
    exists i :: RunAt(s, mark, k, i) && i + k <= n
  }

  /** The counter's value is exactly the run of `mark` ending the prefix:
      the last Trailing cells hold `mark` and the cell before them does
      not. */
  lemma {:induction false} TrailingRun(s: seq<Mark>, n: int, mark: Mark)
    requires 0 <= n <= |s|
    ensures forall j :: n - Trailing(s, n, mark) <= j < n ==> s[j] == mark
    ensures Trailing(s, n, mark) < n ==> s[n - 1 - Trailing(s, n, mark)] != mark
  {
    if n > 0 && s[n - 1] == mark {
      TrailingRun(s, n - 1, mark);
    }
  }

  lemma {:induction false} TrailingAtLeast(s: seq<Mark>, n: int, mark: Mark, m: int)
    requires 0 <= m <= n <= |s|
    requires forall j :: n - m <= j < n ==> s[j] == mark
    ensures Trailing(s, n, mark) >= m
  {
    if m > 0 {
      TrailingAtLeast(s, n - 1, mark, m - 1);
    }
  }

  /** A run within the first n cells either lies within the first n - 1
      or ends at cell n - 1. */
  lemma {:induction false} RunAtEnd(s: seq<Mark>, n: int, mark: Mark, k: int)
    requires k >= 1 && 1 <= n <= |s|
    ensures HasRun(s, n, mark, k) <==> HasRun(s, n - 1, mark, k) || Trailing(s, n, mark) >= k
  {
    if HasRun(s, n, mark, k) {
      var i :| RunAt(s, mark, k, i) && i + k <= n;
      if i + k == n {
        TrailingAtLeast(s, n, mark, k);
      }
    }
    if Trailing(s, n, mark) >= k {
      TrailingRun(s, n, mark);
      assert RunAt(s, mark, k, n - k);
    }
  }

  /** The check fires within a prefix exactly when the prefix holds k
      consecutive cells of the mark. The counter can pass k only after
      being equal to it, so testing for equality misses no run. */
  lemma {:induction false} ReachedIffRun(s: seq<Mark>, n: int, mark: Mark, k: int)
    requires k >= 1 && 0 <= n <= |s|
    ensures Reached(s, n, mark, k) <==> HasRun(s, n, mark, k)
  {
    if n > 0 {
      ReachedIffRun(s, n - 1, mark, k);
      RunAtEnd(s, n, mark, k);
      if Trailing(s, n, mark) > k {
        assert Trailing(s, n - 1, mark) == Trailing(s, n, mark) - 1;
        TrailingRun(s, n - 1, mark);
        assert RunAt(s, mark, k, n - 1 - k);
      }
    }
  }

  /** The check fires along a line exactly when the line holds k
      consecutive cells of the mark. */
  lemma FiresIffRun(s: seq<Mark>, mark: Mark, k: int)
    requires k >= 1
    ensures Fires(s, mark, k) <==> exists i :: RunAt(s, mark, k, i)
  {
    ReachedIffRun(s, |s|, mark, k);
  }

  /** The state of a scan after the first i cells of line `s`, begun with
      a zero counter and the flag `fired0`: the counter is the run of
      `mark` ending there and the flag records whether the check fired. */
  ghost predicate Walked(s: seq<Mark>, i: int, mark: Mark, k: int, streak: int, fired: bool, fired0: bool) {
    0 <= i <= |s| && streak == Trailing(s, i, mark) && fired == (fired0 || Reached(s, i, mark, k))
  }

  /** Counting cell i, which holds m, moves a scan on to the state after
      i + 1 cells. */
  lemma CountCell(s: seq<Mark>, i: int, mark: Mark, k: int, m: Mark, streak: int, fired: bool,
                  streak': int, fired': bool, fired0: bool)
    requires Walked(s, i, mark, k, streak, fired, fired0) && i < |s| && m == s[i]
    requires streak' == if m == mark then streak + 1 else 0
    requires fired' == (fired || (m == mark && streak' == k))
    ensures Walked(s, i + 1, mark, k, streak', fired', fired0)
  {
  }
}
