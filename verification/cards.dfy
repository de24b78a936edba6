/** The four suits, in the order the `Suit` enum declares them (card.py).
    Iterating the enum, and `list(Suit)`, visit them in this order. */
module Cards {

  datatype Suit = Club | Heart | Diamond | Spade

  /** `list(Suit)`: the suits in declaration order. */
  const AllSuits: seq<Suit> := [Club, Heart, Diamond, Spade]

  /** The enum member's value: the suit's display symbol. */
  function Symbol(s: Suit): char {
    match s
    case Club => '\U{2663}'
    case Heart => '\U{2661}'
    case Diamond => '\U{2662}'
    case Spade => '\U{2660}'
  }

  /** Position of a suit in `AllSuits`. */
  function SuitIndex(s: Suit): (i: nat)
    ensures i < |AllSuits| && AllSuits[i] == s
  {
    match s
    case Club => 0
    case Heart => 1
    case Diamond => 2
    case Spade => 3
  }

  /** Each suit has its own symbol, so the symbol tells the suit. */
  lemma SymbolInjective(s: Suit, t: Suit)
    ensures Symbol(s) == Symbol(t) ==> s == t
  {
  }
}
