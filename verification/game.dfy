/** `Game.winner` (game.py): the game is over once a partnership's tally
    reaches +6 or the other partnership's reaches -6. Seats 0 and 2 play
    against seats 1 and 3, and `scores` holds one tally per partnership. */
module Game {
  import opened Base
  import opened Players

  /** A partnership's own tally and its opponents' tally. */
  function Own(team: nat, scores: (int, int)): int
    requires team < 2
  {
    if team == 0 then scores.0 else scores.1
  }

  function Opponents(team: nat, scores: (int, int)): int
    requires team < 2
  {
    if team == 0 then scores.1 else scores.0
  }

  /** A partnership has won when its own tally is +6 or its opponents' is -6. */
  predicate Qualifies(team: nat, scores: (int, int))
    requires team < 2
  {
    Own(team, scores) == 6 || Opponents(team, scores) == -6
  }

  /** The partnership that wins with the given tallies, as the pair of its
      seats, or `None` while the game goes on. The first partnership's check
      comes first. */
  function WinningSeats(scores: (int, int)): (r: Option<(nat, nat)>)
    ensures r.Some? ==> r.value.0 < 2 && r.value.1 == r.value.0 + 2 && Qualifies(r.value.0, scores)
    ensures Qualifies(0, scores) ==> r == Some((0, 2))
    ensures r.None? <==> !Qualifies(0, scores) && !Qualifies(1, scores)
  {
    if scores.0 == 6 || scores.1 == -6 then Some((0, 2))
    else if scores.0 == -6 || scores.1 == 6 then Some((1, 3))
    else None
  }

  /** `Game.winner`: the two players of the winning partnership. */
  function Winner(players: seq<Player>, scores: (int, int)): (r: Option<(Player, Player)>)
    requires |players| == 4
    ensures r.Some? <==> WinningSeats(scores).Some?
    ensures r.Some? ==>
      var (i, j) := WinningSeats(scores).value;
      r.value == (players[i], players[j])
  {
    match WinningSeats(scores)
    case None => None
    case Some((i, j)) => Some((players[i], players[j]))
  }

  /** The tallies a game starts with decide nothing. */
  lemma InitialNoWinner(players: seq<Player>)
    requires |players| == 4
    ensures Winner(players, (0, 0)).None?
  {
  }

  /** Only a tally of exactly +6 or -6 ends the game. */
  lemma OnlyExactSixWins(scores: (int, int))
    requires -6 < scores.0 < 6 && -6 < scores.1 < 6
    ensures WinningSeats(scores).None?
  {
  }

  /** When both partnerships qualify, for instance at (6, 6), seats 0 and 2
      are named. */
  lemma FirstCheckWins(players: seq<Player>)
    requires |players| == 4
    ensures Winner(players, (6, 6)) == Some((players[0], players[2]))
    ensures Winner(players, (-6, -6)) == Some((players[0], players[2]))
    ensures Winner(players, (6, -6)) == Some((players[0], players[2]))
  {
  }

  /** Swapping the two tallies swaps the partnerships' roles, so when only
      one partnership qualifies the swap names the other one. */
  lemma WinnerSwapped(scores: (int, int))
    requires WinningSeats(scores).Some?
    requires !(Qualifies(0, scores) && Qualifies(1, scores))
    ensures var (i, _) := WinningSeats(scores).value;
      WinningSeats((scores.1, scores.0)) == Some((1 - i, 3 - i))
  {
  }
}
