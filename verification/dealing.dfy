/** Building the 32-card deck and dealing it out four cards at a time
    (round.py, `_initialize_and_shuffle_deck` and `deal`). */
module Dealing {
  import opened Base
  import opened Seqs
  import opened Cards
  import opened TwentyNine
  import opened Players

  /** The card values of one suit, in the order the deck is built. */
  const CardValues: seq<int> := [1, 7, 8, 9, 10, 11, 12, 13]

  /** Cards each seat receives in one deal. */
  const CardsToDeal := 4

  /** Value `k` of a suit: the ace first, then 7 up to the king. */
  lemma CardValueAt(k: nat)
    requires k < 8
    ensures CardValues[k] == if k == 0 then 1 else k + 6
  {
    // One branch per position, so that each literal index is evaluated.
    if k == 0 {} else if k == 1 {} else if k == 2 {} else if k == 3 {}
    else if k == 4 {} else if k == 5 {} else if k == 6 {} else {}
  }

  lemma SuitAt(s: nat)
    requires s < 4
    ensures SuitIndex(AllSuits[s]) == s
  {
    // One branch per suit, so that each literal index is evaluated.
    if s == 0 {} else if s == 1 {} else if s == 2 {} else {}
  }

  function MakeCard(suit: Suit, v: int): (c: Card)
    requires ValidValue(v)
    ensures c.suit == suit && c.value == v && WellFormed(c)
  {
    NewCard(suit, v).value
  }

  /** The cards of one suit, one for each value of the list, in order. */
  function SuitCards(suit: Suit, values: seq<int>): (r: seq<Card>)
    requires forall i :: 0 <= i < |values| ==> ValidValue(values[i])
    ensures |r| == |values|
    ensures forall i :: 0 <= i < |values| ==> r[i] == MakeCard(suit, values[i])
  {
    seq(|values|, i requires 0 <= i < |values| => MakeCard(suit, values[i]))
  }

  /** The deck-building loop: the cards of each suit in turn, appended. */
  function BuildDeck(suits: seq<Suit>): (r: seq<Card>)
    ensures |r| == 8 * |suits|
  {
    if suits == [] then []
    else SuitCards(suits[0], CardValues) + BuildDeck(suits[1..])
  }

  /** Card `8 * s + k` of the built deck is value `k` of suit `s`. */
  lemma {:induction false} BuildDeckAt(suits: seq<Suit>, s: nat, k: nat)
    requires s < |suits| && k < 8
    ensures |BuildDeck(suits)| == 8 * |suits|
    ensures BuildDeck(suits)[8 * s + k] == MakeCard(suits[s], CardValues[k])
    decreases |suits|
  {
    var head, rest := SuitCards(suits[0], CardValues), BuildDeck(suits[1..]);
    assert |head| == 8;
    assert BuildDeck(suits) == head + rest;
    if s > 0 {
      BuildDeckAt(suits[1..], s - 1, k);
      assert (head + rest)[8 * s + k] == rest[8 * (s - 1) + k];
    } else {
      assert (head + rest)[k] == head[k];
    }
  }

  /** The unshuffled deck: every suit in declaration order. */
  function FullDeck(): seq<Card> {
    BuildDeck(AllSuits)
  }

  /** Every card of the list was built from an accepted value. */
  predicate AllWellFormed(cards: seq<Card>) {
    forall i :: 0 <= i < |cards| ==> WellFormed(cards[i])
  }

  /** Total trick points of a list of cards. */
  function TotalScore(cards: seq<Card>): int
    requires AllWellFormed(cards)
  {
    if cards == [] then 0 else Score(cards[0]) + TotalScore(cards[1..])
  }

  lemma {:induction false} TotalScoreAppend(a: seq<Card>, b: seq<Card>)
    requires AllWellFormed(a) && AllWellFormed(b)
    ensures AllWellFormed(a + b)
    ensures TotalScore(a + b) == TotalScore(a) + TotalScore(b)
    decreases |a|
  {
    if a != [] {
      assert (a + b)[0] == a[0];
      assert (a + b)[1..] == a[1..] + b;
      TotalScoreAppend(a[1..], b);
    } else {
      assert a + b == b;
    }
  }

  lemma TotalScoreStep(cs: seq<Card>, k: nat)
    requires k < |cs| && AllWellFormed(cs)
    ensures TotalScore(cs[k..]) == Score(cs[k]) + TotalScore(cs[k + 1..])
  {
    assert cs[k..][0] == cs[k] && cs[k..][1..] == cs[k + 1..];
  }

  /** The eight cards of one suit are worth 7 points. */
  lemma SuitScore(suit: Suit)
    ensures TotalScore(SuitCards(suit, CardValues)) == 7
  {
    var cs := SuitCards(suit, CardValues);
    SuitScoreHigh(suit);
    assert Score(cs[0]) == 1 && Score(cs[1]) == 0 && Score(cs[2]) == 0 && Score(cs[3]) == 2;
    TotalScoreStep(cs, 3);
    TotalScoreStep(cs, 2);
    TotalScoreStep(cs, 1);
    TotalScoreStep(cs, 0);
    assert cs[0..] == cs;
  }

  /** The ten, jack, queen and king of a suit are worth 4 points together. */
  lemma SuitScoreHigh(suit: Suit)
    ensures |SuitCards(suit, CardValues)| == 8 && TotalScore(SuitCards(suit, CardValues)[4..]) == 4
  {
    var cs := SuitCards(suit, CardValues);
    assert Score(cs[4]) == 1 && Score(cs[5]) == 3 && Score(cs[6]) == 0 && Score(cs[7]) == 0;
    assert TotalScore(cs[8..]) == 0;
    TotalScoreStep(cs, 7);
    TotalScoreStep(cs, 6);
    TotalScoreStep(cs, 5);
    TotalScoreStep(cs, 4);
  }

  lemma {:induction false} BuildDeckScore(suits: seq<Suit>)
    ensures AllWellFormed(BuildDeck(suits))
    ensures TotalScore(BuildDeck(suits)) == 7 * |suits|
    decreases |suits|
  {
    if suits != [] {
      var head := SuitCards(suits[0], CardValues);
      BuildDeckScore(suits[1..]);
      assert AllWellFormed(head);
      TotalScoreAppend(head, BuildDeck(suits[1..]));
      SuitScore(suits[0]);
    }
  }

  /** Different positions of the built deck hold different cards. */
  lemma BuildDeckPositions(s: nat, k: nat, t: nat, m: nat)
    requires s < 4 && k < 8 && t < 4 && m < 8
    requires (s, k) != (t, m)
    ensures |FullDeck()| == 32
    ensures FullDeck()[8 * s + k] != FullDeck()[8 * t + m]
  {
    BuildDeckAt(AllSuits, s, k);
    BuildDeckAt(AllSuits, t, m);
    CardValueAt(k);
    CardValueAt(m);
    SuitAt(s);
    SuitAt(t);
  }

  lemma FullDeckDistinct()
    ensures |FullDeck()| == 32
    ensures Distinct(FullDeck())
  {
    forall i, j | 0 <= i < j < 32 ensures FullDeck()[i] != FullDeck()[j] {
      assert i == 8 * (i / 8) + i % 8 && j == 8 * (j / 8) + j % 8;
      BuildDeckPositions(i / 8, i % 8, j / 8, j % 8);
    }
  }

  lemma FullDeckMembers(c: Card)
    ensures c in FullDeck() <==> WellFormed(c)
  {
    var d := FullDeck();
    if WellFormed(c) {
      var k := if c.value == 1 then 0 else c.value - 6;
      CardValueAt(k);
      BuildDeckAt(AllSuits, SuitIndex(c.suit), k);
      assert d[8 * SuitIndex(c.suit) + k] == c;
    }
    if c in d {
      var i :| 0 <= i < |d| && d[i] == c;
      assert i == 8 * (i / 8) + i % 8;
      BuildDeckAt(AllSuits, i / 8, i % 8);
      CardValueAt(i % 8);
    }
  }

  /** The deck holds every well-formed card exactly once and nothing else. */
  lemma FullDeckCount(c: Card)
    ensures multiset(FullDeck())[c] == if WellFormed(c) then 1 else 0
  {
    FullDeckDistinct();
    FullDeckMembers(c);
    DistinctCount(FullDeck(), c);
  }

  /** The deck's cards are worth 28 points in all. */
  lemma FullDeckScore()
    ensures AllWellFormed(FullDeck()) && TotalScore(FullDeck()) == 28
  {
    BuildDeckScore(AllSuits);
  }

  /** The cards the `j`-th seat in dealing order receives from `deck` in
      one deal: the `j`-th group of four counted from the end, last card first. */
  function Chunk(deck: seq<Card>, j: nat): seq<Card>
    requires 4 * (j + 1) <= |deck|
  {
    Reverse(deck[|deck| - 4 * (j + 1)..|deck| - 4 * j])
  }

  /** Seat numbers that index the players tuple from the front. */
  predicate NonNegativeSeats(order: seq<int>) {
    forall i :: 0 <= i < |order| ==> order[i] >= 0
  }

  /** `deal`: visiting the seats in `order`, append the top four cards of
      the deck to each seat's hand. A seat the table does not have, or a deck
      that runs out of cards, is an IndexError. */
  function Deal(players: seq<Player>, deck: seq<Card>, order: seq<int>): (r: Result<(seq<Player>, seq<Card>)>)
    requires NonNegativeSeats(order)
    ensures r.Ok? <==> 4 * |order| <= |deck| && forall i :: 0 <= i < |order| ==> order[i] < |players|
    ensures r.Err? ==> r.error == IndexError
    ensures r.Ok? ==> |r.value.0| == |players|
    ensures r.Ok? ==> r.value.1 == deck[..|deck| - 4 * |order|]
    ensures r.Ok? ==> forall i :: 0 <= i < |players| ==> r.value.0[i].name == players[i].name
    ensures r.Ok? ==> forall i :: 0 <= i < |players| && i !in order ==> r.value.0[i] == players[i]
    decreases |order|
  {
    if order == [] then Ok((players, deck))
    else if order[0] >= |players| then Err(IndexError)
    else
      var drawn :- TopNCards(deck, CardsToDeal);
      var seat := order[0];
      var dealt := players[seat := players[seat].(cards := players[seat].cards + drawn.0)];
      var r := Deal(dealt, drawn.1, order[1..]);
      assert r.Ok? ==> r.value.1 == deck[..|deck| - 4 * |order|] by {
        if r.Ok? {
          assert drawn.1[..|drawn.1| - 4 * (|order| - 1)] == deck[..|deck| - 4 * |order|];
        }
      }
      r
  }

  /** The first seat in `order` takes the top four cards. */
  function DealtFirst(players: seq<Player>, deck: seq<Card>, order: seq<int>): (ps: seq<Player>)
    requires forall i :: 0 <= i < |order| ==> 0 <= order[i] < |players|
    requires 4 <= |deck| && order != []
    ensures |ps| == |players|
  {
    var seat := order[0];
    players[seat := players[seat].(cards := players[seat].cards + Chunk(deck, 0))]
  }

  /** One step of `deal`: the first seat draws, the rest of the order deals from what is left. */
  lemma DealStep(players: seq<Player>, deck: seq<Card>, order: seq<int>)
    requires forall i :: 0 <= i < |order| ==> 0 <= order[i] < |players|
    requires 4 * |order| <= |deck| && order != []
    ensures Deal(players, deck, order) == Deal(DealtFirst(players, deck, order), deck[..|deck| - 4], order[1..])
  {
    var t := TopNCards(deck, CardsToDeal);
    assert t.Ok? && t.value.1 == deck[..|deck| - 4];
    assert t.value.0 == Chunk(deck, 0) by {
      assert deck[|deck| - 4..|deck| - 4 * 0] == deck[|deck| - 4..];
    }
  }

  lemma DealFirstSeat(players: seq<Player>, deck: seq<Card>, order: seq<int>)
    requires forall i :: 0 <= i < |order| ==> 0 <= order[i] < |players|
    requires Distinct(order)
    requires 4 * |order| <= |deck| && order != []
    ensures Deal(players, deck, order).value.0[order[0]].cards == players[order[0]].cards + Chunk(deck, 0)
  {
    DealStep(players, deck, order);
    assert order[0] !in order[1..];
  }

  /** With each seat in `order` visited once, the `j`-th seat in order gets
      the `j`-th group of four from the end of the deck. */
  lemma {:induction false} DealGivesChunk(players: seq<Player>, deck: seq<Card>, order: seq<int>, j: nat)
    requires forall i :: 0 <= i < |order| ==> 0 <= order[i] < |players|
    requires Distinct(order)
    requires 4 * |order| <= |deck| && j < |order|
    ensures Deal(players, deck, order).value.0[order[j]].cards == players[order[j]].cards + Chunk(deck, j)
    decreases j
  {
    if j == 0 {
      DealFirstSeat(players, deck, order);
    } else {
      var dealt, rest, later := DealtFirst(players, deck, order), deck[..|deck| - 4], order[1..];
      LaterSeat(players, deck, order, j);
      DealGivesChunk(dealt, rest, later, j - 1);
      ChunkAfterDraw(deck, rest, j);
      var seat := order[j];
      assert seat == later[j - 1];
      var hand := Deal(dealt, rest, later).value.0[seat].cards;
      assert hand == dealt[seat].cards + Chunk(rest, j - 1);
      assert hand == players[seat].cards + Chunk(deck, j);
    }
  }

  /** A seat after the first in `order` is untouched by the first draw and is
      dealt by the rest of the order from what is left. */
  lemma LaterSeat(players: seq<Player>, deck: seq<Card>, order: seq<int>, j: nat)
    requires forall i :: 0 <= i < |order| ==> 0 <= order[i] < |players|
    requires Distinct(order)
    requires 4 * |order| <= |deck| && 0 < j < |order|
    ensures Distinct(order[1..]) && order[1..][j - 1] == order[j]
    ensures forall i :: 0 <= i < |order[1..]| ==> 0 <= order[1..][i] < |DealtFirst(players, deck, order)|
    ensures DealtFirst(players, deck, order)[order[j]] == players[order[j]]
    ensures Deal(players, deck, order) == Deal(DealtFirst(players, deck, order), deck[..|deck| - 4], order[1..])
  {
    DealStep(players, deck, order);
    assert order[j] != order[0];
  }

  lemma DealGivesChunks(players: seq<Player>, deck: seq<Card>, order: seq<int>)
    requires forall i :: 0 <= i < |order| ==> 0 <= order[i] < |players|
    requires Distinct(order)
    requires 4 * |order| <= |deck|
    ensures var ps := Deal(players, deck, order).value.0;
      forall j :: 0 <= j < |order| ==>
        ps[order[j]].cards == players[order[j]].cards + Chunk(deck, j)
  {
    forall j | 0 <= j < |order|
      ensures Deal(players, deck, order).value.0[order[j]].cards == players[order[j]].cards + Chunk(deck, j)
    {
      DealGivesChunk(players, deck, order, j);
    }
  }

  /** Once the top four cards are drawn, group `j - 1` of what is left is group `j` of the deck. */
  lemma ChunkAfterDraw(deck: seq<Card>, rest: seq<Card>, j: nat)
    requires 4 * (j + 1) <= |deck| && rest == deck[..|deck| - 4] && j > 0
    ensures Chunk(rest, j - 1) == Chunk(deck, j)
  {
    assert rest[|rest| - 4 * j..|rest| - 4 * (j - 1)] == deck[|deck| - 4 * (j + 1)..|deck| - 4 * j];
  }

  /** The cards the first `n` seats in order draw, in the order they are drawn. */
  function Drawn(deck: seq<Card>, n: nat): seq<Card>
    requires 4 * n <= |deck|
  {
    if n == 0 then [] else Drawn(deck, n - 1) + Chunk(deck, n - 1)
  }

  /** What `n` seats draw is the top `4 * n` cards, last card first. */
  lemma {:induction false} DrawnIsTop(deck: seq<Card>, n: nat)
    requires 4 * n <= |deck|
    ensures Drawn(deck, n) == Reverse(deck[|deck| - 4 * n..])
  {
    if n > 0 {
      var k := |deck| - 4 * n;
      var lower, upper := deck[k..k + 4], deck[k + 4..];
      calc {
        Drawn(deck, n);
        Drawn(deck, n - 1) + Chunk(deck, n - 1);
        { DrawnIsTop(deck, n - 1); }
        Reverse(upper) + Reverse(lower);
        { ReverseAppend(lower, upper); }
        Reverse(lower + upper);
        { assert lower + upper == deck[k..]; }
        Reverse(deck[k..]);
      }
    }
  }

  /** The deck left after a deal, followed by the dealt cards taken back in
      reverse, is the deck before the deal. */
  lemma DealSplitsDeck(players: seq<Player>, deck: seq<Card>, order: seq<int>)
    requires forall i :: 0 <= i < |order| ==> 0 <= order[i] < |players|
    requires 4 * |order| <= |deck|
    ensures Deal(players, deck, order).value.1 + Reverse(Drawn(deck, |order|)) == deck
  {
    DrawnIsTop(deck, |order|);
    ReverseReverse(deck[|deck| - 4 * |order|..]);
    assert deck[..|deck| - 4 * |order|] + deck[|deck| - 4 * |order|..] == deck;
  }

  /** Adding `extra` to one seat's hand adds exactly `extra` to the table. */
  lemma {:induction false} HandsAppend(ps: seq<Player>, i: nat, extra: seq<Card>)
    requires i < |ps|
    ensures multiset(Hands(ps[i := ps[i].(cards := ps[i].cards + extra)]))
         == multiset(Hands(ps)) + multiset(extra)
    decreases |ps|
  {
    var p := ps[i].(cards := ps[i].cards + extra);
    var q := ps[i := p];
    var x := multiset(extra);
    if i > 0 {
      assert q[0] == ps[0] && q[1..] == ps[1..][i - 1 := p];
      HandsAppend(ps[1..], i - 1, extra);
      var h0, hq, hp := multiset(ps[0].cards), multiset(Hands(q[1..])), multiset(Hands(ps[1..]));
      assert hq == hp + x;
      calc {
        multiset(Hands(q));
        h0 + hq;
        h0 + (hp + x);
        (h0 + hp) + x;
        multiset(Hands(ps)) + x;
      }
    } else {
      assert q[1..] == ps[1..];
      var h0, hp := multiset(ps[0].cards), multiset(Hands(ps[1..]));
      calc {
        multiset(Hands(q));
        multiset(ps[0].cards + extra) + hp;
        (h0 + x) + hp;
        (h0 + hp) + x;
        multiset(Hands(ps)) + x;
      }
    }
  }

  /** Dealing moves cards from the deck to the hands and loses or adds none. */
  lemma {:induction false} DealConserves(players: seq<Player>, deck: seq<Card>, order: seq<int>)
    requires forall i :: 0 <= i < |order| ==> 0 <= order[i] < |players|
    requires 4 * |order| <= |deck|
    ensures var (ps, rest) := Deal(players, deck, order).value;
      multiset(Hands(ps)) + multiset(rest) == multiset(Hands(players)) + multiset(deck)
    decreases |order|
  {
    if order != [] {
      var dealt, rest := DealtFirst(players, deck, order), deck[..|deck| - 4];
      DealStep(players, deck, order);
      FirstDrawConserves(players, deck, order);
      DealConserves(dealt, rest, order[1..]);
    }
  }

  /** The first seat's draw moves four cards from the deck to its hand. */
  lemma FirstDrawConserves(players: seq<Player>, deck: seq<Card>, order: seq<int>)
    requires forall i :: 0 <= i < |order| ==> 0 <= order[i] < |players|
    requires 4 <= |deck| && order != []
    ensures multiset(Hands(DealtFirst(players, deck, order))) + multiset(deck[..|deck| - 4])
         == multiset(Hands(players)) + multiset(deck)
  {
    var c := Chunk(deck, 0);
    HandsAppend(players, order[0], c);
    ChunkZero(deck);
    Regroup(multiset(Hands(DealtFirst(players, deck, order))), multiset(Hands(players)), multiset(c),
            multiset(deck[..|deck| - 4]), multiset(deck));
  }

  /** The top group holds the top four cards, and with the rest makes up the deck. */
  lemma ChunkZero(deck: seq<Card>)
    requires 4 <= |deck|
    ensures multiset(deck[..|deck| - 4]) + multiset(Chunk(deck, 0)) == multiset(deck)
  {
    var top, rest := deck[|deck| - 4..], deck[..|deck| - 4];
    assert Chunk(deck, 0) == Reverse(top) by {
      assert deck[|deck| - 4..|deck| - 4 * 0] == top;
    }
    ReverseMultiset(top);
    assert deck == rest + top;
  }

  lemma Regroup<T>(x: multiset<T>, h: multiset<T>, t: multiset<T>, r: multiset<T>, d: multiset<T>)
    requires x == h + t && r + t == d
    ensures x + r == h + d
  {
  }

  /** A card held in two different seats is counted twice at the table. */
  lemma {:induction false} HandsCountTwo(ps: seq<Player>, i: nat, j: nat, c: Card)
    requires i < j < |ps|
    ensures multiset(Hands(ps))[c] >= multiset(ps[i].cards)[c] + multiset(ps[j].cards)[c]
    decreases |ps|
  {
    if i > 0 {
      HandsCountTwo(ps[1..], i - 1, j - 1, c);
    } else {
      HandsCountOne(ps[1..], j - 1, c);
    }
  }

  lemma {:induction false} HandsCountOne(ps: seq<Player>, i: nat, c: Card)
    requires i < |ps|
    ensures multiset(Hands(ps))[c] >= multiset(ps[i].cards)[c]
    decreases |ps|
  {
    if i > 0 {
      HandsCountOne(ps[1..], i - 1, c);
    }
  }

  /** All hands empty. */
  predicate EmptyHanded(ps: seq<Player>) {
    forall i :: 0 <= i < |ps| ==> ps[i].cards == []
  }

  lemma {:induction false} EmptyHands(ps: seq<Player>)
    requires EmptyHanded(ps)
    ensures Hands(ps) == []
    decreases |ps|
  {
    if ps != [] {
      EmptyHands(ps[1..]);
    }
  }

  /** A dealing order that visits each of the four seats exactly once. */
  predicate SeatPermutation(order: seq<int>) {
    && |order| == 4
    && Distinct(order)
    && (forall i :: 0 <= i < |order| ==> 0 <= order[i] < 4)
    && (forall seat :: 0 <= seat < 4 ==> seat in order)
  }

  /** Two deals of a 32-card deck to four empty hands: the deck ends empty
      and seat `order[j]` holds its group from each deal. */
  lemma TwoDealsGroups(players: seq<Player>, deck: seq<Card>, order: seq<int>)
    requires |players| == 4 && |deck| == 32
    requires SeatPermutation(order)
    ensures Deal(players, deck, order).Ok?
    ensures var (ps1, rest1) := Deal(players, deck, order).value;
      && Deal(ps1, rest1, order).Ok?
      && var (ps2, rest2) := Deal(ps1, rest1, order).value;
      && rest2 == []
      && |ps2| == 4
      && (forall i :: 0 <= i < 4 ==> ps2[i].name == players[i].name)
      && (forall j :: 0 <= j < 4 ==>
            ps2[order[j]].cards == players[order[j]].cards + Chunk(deck, j) + Chunk(deck, 4 + j))
  {
    var (ps1, rest1) := Deal(players, deck, order).value;
    var (ps2, rest2) := Deal(ps1, rest1, order).value;
    DealGivesChunks(players, deck, order);
    DealGivesChunks(ps1, rest1, order);
    forall j | 0 <= j < 4
      ensures ps2[order[j]].cards == players[order[j]].cards + Chunk(deck, j) + Chunk(deck, 4 + j)
    {
      ChunkOfRest(deck, rest1, j);
    }
  }

  /** ... and the hands together hold the deck, each card as often as the deck does. */
  lemma TwoDealsConserve(players: seq<Player>, deck: seq<Card>, order: seq<int>)
    requires |players| == 4 && EmptyHanded(players) && |deck| == 32
    requires SeatPermutation(order)
    ensures Deal(players, deck, order).Ok?
    ensures var (ps1, rest1) := Deal(players, deck, order).value;
      && Deal(ps1, rest1, order).Ok?
      && multiset(Hands(Deal(ps1, rest1, order).value.0)) == multiset(deck)
  {
    TwoDealsGroups(players, deck, order);
    var (ps1, rest1) := Deal(players, deck, order).value;
    var (ps2, rest2) := Deal(ps1, rest1, order).value;
    DealConserves(players, deck, order);
    DealConserves(ps1, rest1, order);
    EmptyHands(players);
    ConservedTwice(Hands(players), deck, Hands(ps1), rest1, Hands(ps2), rest2);
  }

  /** Two conserving moves from empty hands to an empty deck put the whole deck in the hands. */
  lemma ConservedTwice(h0: seq<Card>, d0: seq<Card>, h1: seq<Card>, d1: seq<Card>, h2: seq<Card>, d2: seq<Card>)
    requires h0 == [] && d2 == []
    requires multiset(h1) + multiset(d1) == multiset(h0) + multiset(d0)
    requires multiset(h2) + multiset(d2) == multiset(h1) + multiset(d1)
    ensures multiset(h2) == multiset(d0)
  {
    assert multiset(h0) == multiset{} && multiset(d2) == multiset{};
    assert multiset(h2) == multiset(h1) + multiset(d1);
  }

  /** Two deals of a 32-card deck to four empty hands: the deck ends empty,
      seat `order[j]` holds its group from each deal, every hand has 8 cards,
      the hands together are the deck, and a deck without repeats leaves no
      card in two hands. */
  lemma TwoDealsEmptyTheDeck(players: seq<Player>, deck: seq<Card>, order: seq<int>)
    requires |players| == 4 && EmptyHanded(players)
    requires |deck| == 32
    requires SeatPermutation(order)
    ensures Deal(players, deck, order).Ok?
    ensures var (ps1, rest1) := Deal(players, deck, order).value;
      && Deal(ps1, rest1, order).Ok?
      && var (ps2, rest2) := Deal(ps1, rest1, order).value;
      && rest2 == []
      && (forall j :: 0 <= j < 4 ==> ps2[order[j]].cards == Chunk(deck, j) + Chunk(deck, 4 + j))
      && (forall i :: 0 <= i < |ps2| ==> |ps2[i].cards| == 8)
      && multiset(Hands(ps2)) == multiset(deck)
      && (Distinct(deck) ==> forall i, j :: 0 <= i < j < |ps2| ==> multiset(ps2[i].cards) !! multiset(ps2[j].cards))
  {
    TwoDealsGroups(players, deck, order);
    TwoDealsConserve(players, deck, order);
    var (ps1, rest1) := Deal(players, deck, order).value;
    var (ps2, rest2) := Deal(ps1, rest1, order).value;
    FromEmptyHands(players, ps2, deck, order);
    EightEach(ps2, deck, order);
    if Distinct(deck) {
      HandsDisjoint(ps2, deck);
    }
  }

  /** Hands that started empty hold just the two groups dealt to them. */
  lemma FromEmptyHands(players: seq<Player>, ps2: seq<Player>, deck: seq<Card>, order: seq<int>)
    requires |players| == 4 && |ps2| == 4 && EmptyHanded(players) && |deck| == 32 && SeatPermutation(order)
    requires forall j :: 0 <= j < 4 ==>
      ps2[order[j]].cards == players[order[j]].cards + Chunk(deck, j) + Chunk(deck, 4 + j)
    ensures forall j :: 0 <= j < 4 ==> ps2[order[j]].cards == Chunk(deck, j) + Chunk(deck, 4 + j)
  {
    forall j | 0 <= j < 4 ensures ps2[order[j]].cards == Chunk(deck, j) + Chunk(deck, 4 + j) {
      assert players[order[j]].cards == [];
      assert ps2[order[j]].cards == players[order[j]].cards + Chunk(deck, j) + Chunk(deck, 4 + j);
    }
  }

  /** Every seat is in the order, so every hand holds two groups of four. */
  lemma EightEach(ps2: seq<Player>, deck: seq<Card>, order: seq<int>)
    requires |ps2| == 4 && |deck| == 32 && SeatPermutation(order)
    requires forall j :: 0 <= j < 4 ==> ps2[order[j]].cards == Chunk(deck, j) + Chunk(deck, 4 + j)
    ensures forall i :: 0 <= i < |ps2| ==> |ps2[i].cards| == 8
  {
    forall i | 0 <= i < |ps2| ensures |ps2[i].cards| == 8 {
      var j := IndexOf(order, i);
      assert ps2[order[j]].cards == Chunk(deck, j) + Chunk(deck, 4 + j);
    }
  }

  /** The groups of the second deal are the next four groups of the first deck. */
  lemma ChunkOfRest(deck: seq<Card>, rest: seq<Card>, j: nat)
    requires |deck| == 32 && rest == deck[..16] && j < 4
    ensures Chunk(rest, j) == Chunk(deck, 4 + j)
  {
    assert rest[12 - 4 * j..16 - 4 * j] == deck[12 - 4 * j..16 - 4 * j];
  }

  /** When the hands hold the cards of a deck without repeats, no card is in two hands. */
  lemma HandsDisjoint(ps: seq<Player>, deck: seq<Card>)
    requires multiset(Hands(ps)) == multiset(deck) && Distinct(deck)
    ensures forall i, j :: 0 <= i < j < |ps| ==> multiset(ps[i].cards) !! multiset(ps[j].cards)
  {
    forall i, j | 0 <= i < j < |ps| ensures multiset(ps[i].cards) !! multiset(ps[j].cards) {
      forall c | c in multiset(ps[i].cards) ensures c !in multiset(ps[j].cards) {
        HandsCountTwo(ps, i, j, c);
        DistinctCount(deck, c);
      }
    }
  }
}
