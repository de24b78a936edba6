/** Twenty-Nine cards and the deck's "pop from the top" operation
    (twentynine.py). */
module TwentyNine {
  import opened Base
  import opened Cards
  import opened Seqs

  /** The values the card's value setter accepts: the ace (1) and 7 up to the king (13). */
  predicate ValidValue(v: int) {
    v == 1 || 7 <= v <= 13
  }

  /** The card name table: letters for the court cards and the ace, the
      decimal string of the number for 7 to 10, a ValueError for anything else. */
  function NameOf(value: int): (r: Result<string>)
    ensures r.Ok? <==> ValidValue(value)
    ensures r.Ok? ==> 1 <= |r.value| <= 2
  {
    match value
    case 1 => Ok("A")
    case 11 => Ok("J")
    case 12 => Ok("Q")
    case 13 => Ok("K")
    case 7 => Ok("7")
    case 8 => Ok("8")
    case 9 => Ok("9")
    case 10 => Ok("10")
    case _ => Err(ValueError)
  }

  /** The trick-point table: jack 3, nine 2, ace and ten 1, the rest 0;
      a ValueError for anything else. */
  function ScoreOf(value: int): (r: Result<int>)
    ensures r.Ok? <==> ValidValue(value)
    ensures r.Ok? ==> 0 <= r.value <= 3
  {
    match value
    case 1 | 10 => Ok(1)
    case 7 | 8 | 12 | 13 => Ok(0)
    case 9 => Ok(2)
    case 11 => Ok(3)
    case _ => Err(ValueError)
  }

  /** A TwentyNineCard: a suit and a value. The card's name and score are
      fixed by the value when the card is built (see `Name` and `Score`). */
  datatype Card = Card(suit: Suit, value: int)

  /** What every constructed card satisfies. */
  predicate WellFormed(c: Card) {
    ValidValue(c.value)
  }

  /** `TwentyNineCard(suit, value)`: the value setter rejects the value first;
      otherwise the name and the score are looked up, and for an accepted
      value neither table fails. */
  function NewCard(suit: Suit, value: int): (r: Result<Card>)
    ensures r.Ok? <==> ValidValue(value)
    ensures r.Ok? ==> r.value.suit == suit && r.value.value == value && WellFormed(r.value)
  {
    if !ValidValue(value) then Err(ValueError)
    else if NameOf(value).Err? || ScoreOf(value).Err? then Err(ValueError)
    else Ok(Card(suit, value))
  }

  /** The `name` property. */
  function Name(c: Card): string
    requires WellFormed(c)
  {
    NameOf(c.value).value
  }

  /** The `score` property. */
  function Score(c: Card): (r: int)
    requires WellFormed(c)
    ensures 0 <= r <= 3
  {
    ScoreOf(c.value).value
  }

  /** `str(card)`: the suit symbol, a dash, the card's name. */
  function ToString(c: Card): (r: string)
    requires WellFormed(c)
    ensures |r| == |Name(c)| + 2 && r[0] == Symbol(c.suit) && r[1] == '-' && r[2..] == Name(c)
  {
    [Symbol(c.suit), '-'] + Name(c)
  }

  /** The name table spelled out: 7..10 print as their decimal digits. */
  lemma NameTable()
    ensures NameOf(1) == Ok("A") && NameOf(11) == Ok("J")
    ensures NameOf(12) == Ok("Q") && NameOf(13) == Ok("K")
    ensures NameOf(7) == Ok("7") && NameOf(8) == Ok("8")
    ensures NameOf(9) == Ok("9") && NameOf(10) == Ok("10")
  {
  }

  /** The score table spelled out: the jack 3, the nine 2, the ace and the
      ten 1, and the 7, 8, queen and king nothing. */
  lemma ScoreTable()
    ensures ScoreOf(11) == Ok(3) && ScoreOf(9) == Ok(2)
    ensures ScoreOf(1) == Ok(1) && ScoreOf(10) == Ok(1)
    ensures ScoreOf(7) == Ok(0) && ScoreOf(8) == Ok(0)
    ensures ScoreOf(12) == Ok(0) && ScoreOf(13) == Ok(0)
  {
  }

  /** Different accepted values get different names. */
  lemma NameInjective(v: int, w: int)
    requires ValidValue(v) && ValidValue(w)
    ensures NameOf(v) == NameOf(w) ==> v == w
  {
    NameTable();
  }

  /** Two well-formed cards that print the same are the same card. */
  lemma ToStringInjective(c: Card, d: Card)
    requires WellFormed(c) && WellFormed(d)
    requires ToString(c) == ToString(d)
    ensures c == d
  {
    var s := ToString(c);
    assert Symbol(c.suit) == s[0] == Symbol(d.suit);
    SymbolInjective(c.suit, d.suit);
    assert Name(c) == s[2..] == Name(d);
    NameInjective(c.value, d.value);
  }

  /** `deck.top_n_cards(n)`: pop `n` cards off the end of the list, the
      first popped first in the result. A non-positive `n` pops nothing;
      popping an emptied list is an IndexError. */
  function TopNCards(cards: seq<Card>, n: int): (r: Result<(seq<Card>, seq<Card>)>)
    ensures r.Ok? <==> n <= |cards|
    ensures n <= 0 ==> r == Ok(([], cards))
    ensures r.Ok? && n >= 0 ==>
      && |r.value.0| == n
      && r.value.1 == cards[..|cards| - n]
      && r.value.0 == Reverse(cards[|cards| - n..])
    decreases if n < 0 then 0 else n
  {
    if n <= 0 then Ok(([], cards))
    else if |cards| == 0 then Err(IndexError)
    else
      var last, init := cards[|cards| - 1], cards[..|cards| - 1];
      var rest :- TopNCards(init, n - 1);
      assert rest.1 == cards[..|cards| - n] by { assert init[..|init| - (n - 1)] == cards[..|cards| - n]; }
      var below := init[|init| - (n - 1)..];
      assert cards[|cards| - n..] == below + [last];
      ReverseAppend(below, [last]);
      assert Reverse([last]) == [last];
      Ok(([last] + rest.0, rest.1))
  }

  /** The cards left plus the popped cards put back in reverse are the deck. */
  lemma TopNConserves(cards: seq<Card>, n: int)
    requires 0 <= n <= |cards|
    ensures var (top, rest) := TopNCards(cards, n).value;
      rest + Reverse(top) == cards && multiset(rest) + multiset(top) == multiset(cards)
  {
    var (top, rest) := TopNCards(cards, n).value;
    var k := |cards| - n;
    assert Reverse(top) == cards[k..];
    assert rest + Reverse(top) == cards;
    ReverseMultiset(cards[k..]);
    assert multiset(cards) == multiset(cards[..k]) + multiset(cards[k..]) by {
      assert cards == cards[..k] + cards[k..];
    }
  }
}
