/** A series of games between two players (ex1/Tournament.java): the
    players swap seats every round, and the tournament counts each
    player's wins and the draws. */
module Tournaments {
  import opened Boards
  import opened Lines
  import opened Players
  import opened Games

  /** The three counters of a tournament. */
  datatype Score = Score(player1Wins: int, player2Wins: int, ties: int)

  /** The number of games a score accounts for. */
  function Total(s: Score): int {
    s.player1Wins + s.player2Wins + s.ties
  }

  /** The mark player 1 holds in a game: X when `parity` says player 1
      was seated first, O otherwise. */
  function Player1Mark(parity: bool): (m: Mark)
    ensures m != Blank
  {
    if parity then X else O
  }

  /** The score after one more game that ended with `mark` (gameWinCheck),
      when player 1 held X in that game exactly if `parity`. */
  function Credit(s: Score, mark: Mark, parity: bool): Score {
    if mark == Blank then s.(ties := s.ties + 1)
    else if parity then
      if mark == X then s.(player1Wins := s.player1Wins + 1) else s.(player2Wins := s.player2Wins + 1)
    else
      if mark == X then s.(player2Wins := s.player2Wins + 1) else s.(player1Wins := s.player1Wins + 1)
  }

  /** Each game is counted once: the blank mark is a draw, player 1's mark
      a win for player 1 and the other mark a win for player 2, and
      exactly one counter goes up by one. */
  lemma CreditCounts(s: Score, mark: Mark, parity: bool)
    ensures Total(Credit(s, mark, parity)) == Total(s) + 1
    ensures Credit(s, mark, parity).ties == s.ties + 1 <==> mark == Blank
    ensures Credit(s, mark, parity).player1Wins == s.player1Wins + 1 <==> mark == Player1Mark(parity)
    ensures Credit(s, mark, parity).player2Wins == s.player2Wins + 1 <==> mark != Blank && mark != Player1Mark(parity)
    ensures s.player1Wins <= Credit(s, mark, parity).player1Wins && s.player2Wins <= Credit(s, mark, parity).player2Wins
    ensures s.ties <= Credit(s, mark, parity).ties
  {
  }

  /** Whether player 1 is seated first, and so plays X, in round `round`. */
  predicate Player1First(round: int) {
    round % 2 == 0
  }

  /** The score of a tournament whose games, from round 0 on, ended with
      `results`. */
  function Tally(results: seq<Mark>): Score {
    if |results| == 0 then Score(0, 0, 0)
    else Credit(Tally(results[..|results| - 1]), results[|results| - 1], Player1First(|results| - 1))
  }

  /** Every game of a tournament is counted once: the wins and draws add
      up to the number of rounds played. */
  lemma {:induction false} TallyTotal(results: seq<Mark>)
    ensures Total(Tally(results)) == |results|
    ensures Tally(results).player1Wins >= 0 && Tally(results).player2Wins >= 0 && Tally(results).ties >= 0
  {
    if |results| > 0 {
      TallyTotal(results[..|results| - 1]);
      CreditCounts(Tally(results[..|results| - 1]), results[|results| - 1], Player1First(|results| - 1));
    }
  }

  /** One more round is counted after the earlier ones, with the parity of
      its own index. */
  lemma TallySnoc(results: seq<Mark>, mark: Mark)
    ensures Tally(results + [mark]) == Credit(Tally(results), mark, Player1First(|results|))
  {
    assert (results + [mark])[..|results|] == results;
  }

  /** Two games won with the same mark, one with each seating, credit each
      player once: a win counts for whoever held the mark. */
  lemma SameMarkTwiceIsEven(s: Score, mark: Mark, parity: bool)
    requires mark != Blank
    ensures Credit(Credit(s, mark, parity), mark, !parity) == Score(s.player1Wins + 1, s.player2Wins + 1, s.ties)
  {
  }

  class Tournament {
    const rounds: int
    const player1: Player
    const player2: Player
    var player1Wins: int
    var player2Wins: int
    var tiesCounter: int

    /** The counters as a score. */
    function Counters(): Score
      reads this
    {
      Score(player1Wins, player2Wins, tiesCounter)
    }

    /** A tournament of `rounds` games between the two players, with every
        counter at zero. The renderer is not part of this model. */
    constructor (rounds: int, player1: Player, player2: Player)
      ensures this.rounds == rounds && this.player1 == player1 && this.player2 == player2
      ensures Counters() == Score(0, 0, 0)
    {
      this.rounds := rounds;
      this.player1 := player1;
      this.player2 := player2;
      player1Wins := 0;
      player2Wins := 0;
      tiesCounter := 0;
    }

    /** Counts the result of one game (gameWinCheck). */
    method GameWinCheck(mark: Mark, parity: bool)
      modifies this
      ensures Counters() == Credit(old(Counters()), mark, parity)
    {
      if mark == Blank {
        tiesCounter := tiesCounter + 1;
      } else if parity {
        if mark == X {
          player1Wins := player1Wins + 1;
        } else {
          player2Wins := player2Wins + 1;
        }
      } else {
        if mark == X {
          player2Wins := player2Wins + 1;
        } else {
          player1Wins := player1Wins + 1;
        }
      }
    }

    /** Plays the tournament (playTournament): in round r a new game on a
        size x size board seats player 1 as X when r is even and player 2
        as X when r is odd, and its result is counted with the matching
        parity. The rounds are returned, in order, with their results;
        printing the final score is not part of this model. */
    method PlayTournament(size: int, winStreak: int) returns (ghost played: seq<Played>, ghost results: seq<Mark>)
      requires size >= 1
      modifies this, Self(player1), Self(player2)
      ensures |played| == |results| == if rounds < 0 then 0 else rounds
      ensures Counters() == Sum(old(Counters()), Tally(results))
      ensures forall r :: 0 <= r < |played| ==> Seated(played[r], r, size, winStreak)
      ensures forall r :: 0 <= r < |played| ==> Decided(played[r], results[r])
    {
      played, results := [], [];
      var round := 0;
      while round < rounds
        invariant 0 <= round == |played| == |results|
        invariant if rounds < 0 then round == 0 else round <= rounds
        invariant Counters() == Sum(old(Counters()), Tally(results))
        invariant forall r :: 0 <= r < round ==> Seated(played[r], r, size, winStreak)
        invariant forall r :: 0 <= r < round ==> Decided(played[r], results[r])
      {
        ghost var game;
        var result;
        game, result := PlayRound(round, size, winStreak);
        CountRound(old(Counters()), results, result);
        played, results := played + [game], results + [result];
        round := round + 1;
      }
    }

    /** Round `round` of playTournament: a new game with the seating of
        that round, played to the end, and its result counted. */
    method PlayRound(round: int, size: int, winStreak: int) returns (ghost played: Played, result: Mark)
      requires size >= 1
      modifies this, Self(player1), Self(player2)
      ensures Seated(played, round, size, winStreak) && Decided(played, result)
      ensures Counters() == Credit(old(Counters()), result, Player1First(round))
    {
      var game;
      if round % 2 == 0 {
        game := new Game(player1, player2, size, winStreak);
      } else {
        game := new Game(player2, player1, size, winStreak);
      }
      result := game.Run();
      played := Played(game.playerX, game.playerO, game.board.size, game.winStreak, game.board.Contents());
      GameWinCheck(result, round % 2 == 0);
    }

    /** Round r's game: player 1 holds X in even rounds and player 2 in odd
        ones, on the board and to the streak the tournament asked for. */
    ghost predicate Seated(p: Played, r: int, size: int, winStreak: int) {
      p.playerX == (if Player1First(r) then player1 else player2)
      && p.playerO == (if Player1First(r) then player2 else player1)
      && p.size == size && p.winStreak == CheckStreakValidity(winStreak, size)
    }
  }

  /** A finished game: who sat where, the board's size, the streak it was
      played to and the final board. */
  datatype Played = Played(playerX: Player, playerO: Player, size: int, winStreak: int, final: Grid)

  /** Game `p` ended with `result`: the winner's mark with a winning
      streak on the board, or the blank mark on a full board where neither
      mark has one. */
  ghost predicate Decided(p: Played, result: Mark) {
    Square(p.final, p.size)
    && (result != Blank ==> Wins(p.final, p.size, result, p.winStreak))
    && (result == Blank ==> Blanks(p.final) == 0)
    && (result == Blank ==> !Wins(p.final, p.size, X, p.winStreak))
    && (result == Blank ==> !Wins(p.final, p.size, O, p.winStreak))
  }

  /** Counters `a` followed by the games counted in `b`. */
  function Sum(a: Score, b: Score): Score {
    Score(a.player1Wins + b.player1Wins, a.player2Wins + b.player2Wins, a.ties + b.ties)
  }

  /** Counting one more round after `before` and the rounds of `results`
      credits it with the parity of its own index. */
  lemma CountRound(before: Score, results: seq<Mark>, mark: Mark)
    ensures Sum(before, Tally(results + [mark])) == Credit(Sum(before, Tally(results)), mark, Player1First(|results|))
  {
    TallySnoc(results, mark);
    SumCredit(before, Tally(results), mark, Player1First(|results|));
  }

  lemma SumCredit(a: Score, b: Score, mark: Mark, parity: bool)
    ensures Sum(a, Credit(b, mark, parity)) == Credit(Sum(a, b), mark, parity)
  {
  }

  /** After a tournament whose rounds ended with `results`, begun from
      `before`, the counters account for exactly one more game per round;
      from the zero counters of a new tournament, the wins and draws add up
      to the number of rounds. */
  lemma {:induction false} TournamentTotal(before: Score, results: seq<Mark>)
    ensures Total(Sum(before, Tally(results))) == Total(before) + |results|
    ensures before == Score(0, 0, 0) ==> Sum(before, Tally(results)) == Tally(results)
  {
    TallyTotal(results);
  }
}
