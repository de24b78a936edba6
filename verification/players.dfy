/** A seat at the table: a name and the hand dealt to it (players.py). */
module Players {
  import TwentyNine

  datatype Player = Player(name: string, cards: seq<TwentyNine.Card>)

  /** Every card held at the table, seat by seat. */
  function Hands(ps: seq<Player>): seq<TwentyNine.Card> {
    if ps == [] then [] else ps[0].cards + Hands(ps[1..])
  }
}
