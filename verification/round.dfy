/** One round of the game (round.py): seating the players around the
    dealer, building and shuffling the deck, dealing, the auction, the
    trump selector and the round played end to end. */
module Rounds {
  import opened Base
  import opened Seqs
  import opened Cards
  import opened TwentyNine
  import opened Players
  import opened Dealing
  import opened Bidding

  /** Seats at the table (`PLAYERS`). */
  const PlayerCount := 4

  /** The attributes of a `Round`. The dealer and the highest bidder are
      kept as seat indices. */
  datatype Round = Round(
    players: seq<Player>,
    dealer: int,
    ordering: seq<int>,
    deck: seq<Card>,
    trump: Option<Suit>,
    highestBidder: Option<int>,
    highestBid: Option<int>)

  /** `_create_palyer_ordering`: seat `i` of the turn order is `(dealer + i + 1) % 4`.
      Python's `%` and Dafny's agree for a positive divisor. The turn starts
      left of the dealer, goes round the table and ends with the dealer. */
  function PlayerOrdering(dealer: int): (r: seq<int>)
    ensures |r| == PlayerCount
    ensures r[0] == (dealer + 1) % PlayerCount && r[PlayerCount - 1] == dealer % PlayerCount
    ensures forall i :: 0 <= i < PlayerCount - 1 ==> r[i + 1] == (r[i] + 1) % PlayerCount
    ensures SeatPermutation(r)
  {
    var r := seq(PlayerCount, i => (dealer + i + 1) % PlayerCount);
    RotationFacts(dealer, r);
    r
  }

  /** Reducing the dealer to its seat does not change the rotation. */
  lemma OrderingRotates(dealer: int, i: int)
    ensures (dealer + i + 1) % 4 == (dealer % 4 + i + 1) % 4
  {
    var q, m := dealer / 4, dealer % 4;
    assert dealer + i + 1 == 4 * q + (m + i + 1);
  }

  lemma RotationFacts(dealer: int, r: seq<int>)
    requires |r| == 4 && forall i :: 0 <= i < 4 ==> r[i] == (dealer + i + 1) % 4
    ensures r[3] == dealer % 4
    ensures forall i :: 0 <= i < 3 ==> r[i + 1] == (r[i] + 1) % 4
    ensures SeatPermutation(r)
  {
    var m := dealer % 4;
    assert r == [(m + 1) % 4, (m + 2) % 4, (m + 3) % 4, (m + 4) % 4] by {
      OrderingRotates(dealer, 0);
      OrderingRotates(dealer, 1);
      OrderingRotates(dealer, 2);
      OrderingRotates(dealer, 3);
    }
    RotationOfSeat(m, r);
  }

  /** The turn order for a dealer in seat `m`, seat by seat. */
  lemma RotationOfSeat(m: int, r: seq<int>)
    requires 0 <= m < 4 && r == [(m + 1) % 4, (m + 2) % 4, (m + 3) % 4, (m + 4) % 4]
    ensures r[3] == m
    ensures forall i :: 0 <= i < 3 ==> r[i + 1] == (r[i] + 1) % 4
    ensures SeatPermutation(r)
  {
    if m == 0 {
      assert r == [1, 2, 3, 0];
    } else if m == 1 {
      assert r == [2, 3, 0, 1];
    } else if m == 2 {
      assert r == [3, 0, 1, 2];
    } else {
      assert r == [0, 1, 2, 3];
    }
  }

  /** The four turn orders of the unit tests. */
  lemma PlayerOrderingCases()
    ensures PlayerOrdering(0) == [1, 2, 3, 0]
    ensures PlayerOrdering(1) == [2, 3, 0, 1]
    ensures PlayerOrdering(2) == [3, 0, 1, 2]
    ensures PlayerOrdering(3) == [0, 1, 2, 3]
  {
  }

  /** A shuffle rearranges the cards and neither adds nor loses any. */
  predicate IsShuffleOf(shuffled: seq<Card>, deck: seq<Card>) {
    multiset(shuffled) == multiset(deck)
  }

  /** `Round.__init__`: a dealer outside 0..3 is a ValueError, a dealer seat
      the players tuple does not have is an IndexError; otherwise the round
      starts with no trump, no bid, and the full deck in shuffled order. */
  function NewRound(players: seq<Player>, dealer: int, shuffled: seq<Card>): (r: Result<Round>)
    requires IsShuffleOf(shuffled, FullDeck())
    ensures r == Err(ValueError) <==> !(0 <= dealer <= 3)
    ensures r == Err(IndexError) <==> 0 <= dealer <= 3 && dealer >= |players|
    ensures r.Ok? ==>
      && r.value.players == players && r.value.dealer == dealer
      && r.value.ordering == PlayerOrdering(dealer) && r.value.ordering[PlayerCount - 1] == dealer
      && r.value.deck == shuffled
      && r.value.trump.None? && r.value.highestBidder.None? && r.value.highestBid.None?
  {
    if !(0 <= dealer <= 3) then Err(ValueError)
    else if dealer >= |players| then Err(IndexError)
    else Ok(Round(players, dealer, PlayerOrdering(dealer), shuffled, None, None, None))
  }

  /** The shuffled deck of a new round holds each of the 32 cards exactly
      once and is worth 28 points. */
  lemma NewRoundDeck(players: seq<Player>, dealer: int, shuffled: seq<Card>)
    requires IsShuffleOf(shuffled, FullDeck())
    requires NewRound(players, dealer, shuffled).Ok?
    ensures var deck := NewRound(players, dealer, shuffled).value.deck;
      && |deck| == 32 && Distinct(deck)
      && forall c :: c in deck <==> WellFormed(c)
  {
    var deck := NewRound(players, dealer, shuffled).value.deck;
    FullDeckDistinct();
    DistinctPermutation(FullDeck(), deck);
    assert |deck| == |multiset(deck)| == |multiset(FullDeck())|;
    forall c ensures c in deck <==> WellFormed(c) {
      FullDeckMembers(c);
      assert c in deck <==> c in multiset(deck);
      assert c in FullDeck() <==> c in multiset(FullDeck());
    }
  }

  /** Every seat in the turn order is a seat at the table. */
  predicate Seated(r: Round) {
    forall i :: 0 <= i < |r.ordering| ==> 0 <= r.ordering[i] < |r.players|
  }

  /** `Round.deal`: one pass of `deal` over the turn order, on the round's
      hands and deck; an IndexError when a seat of the turn order is missing
      from the players tuple or the deck runs short. */
  function DealRound(r: Round): (res: Result<Round>)
    requires NonNegativeSeats(r.ordering)
    ensures res.Ok? <==> 4 * |r.ordering| <= |r.deck| && Seated(r)
    ensures res.Err? ==> res.error == IndexError
    ensures res.Ok? ==>
      && |res.value.players| == |r.players| && Seated(res.value)
      && res.value == r.(players := res.value.players, deck := res.value.deck)
      && res.value.deck == r.deck[..|r.deck| - 4 * |r.ordering|]
  {
    var (ps, rest) :- Deal(r.players, r.deck, r.ordering);
    Ok(r.(players := ps, deck := rest))
  }

  /** `get_trump` once the answer is a number in 1..4: the selector picks the
      suit at that position of the enum, Club first. */
  function TrumpFromSelector(k: int): (s: Suit)
    requires 1 <= k <= 4
    ensures SuitIndex(s) == k - 1
  {
    AllSuits[k - 1]
  }

  /** The selector is a bijection between 1..4 and the suits, in declaration order. */
  lemma TrumpSelectorOrder(s: Suit)
    ensures TrumpFromSelector(SuitIndex(s) + 1) == s
    ensures TrumpFromSelector(1) == Club && TrumpFromSelector(2) == Heart
    ensures TrumpFromSelector(3) == Diamond && TrumpFromSelector(4) == Spade
  {
  }

  /** How `play_round` ends: nobody bid and the cards are to be dealt again,
      the trump is set and the second deal made, the answers ran out during
      the auction, or an exception. */
  datatype Play = Redeal(round: Round) | Trumped(round: Round) | Unfinished(round: Round, bidding: State) | Failed(error: PyError)

  /** `play_round`: deal, run the auction on the answers, and if someone won,
      record the bid, take the trump from the selector and deal again. */
  function PlayRound(rule: Rule, r: Round, responses: seq<string>, selector: int): Play
    requires NonNegativeSeats(r.ordering) && 1 <= selector <= 4
  {
    match DealRound(r)
    case Err(e) => Failed(e)
    case Ok(dealt) =>
      match Auction(rule, dealt.ordering, responses)
      case Raised(e) => Failed(e)
      case Pending(s) => Unfinished(dealt, s)
      case NoBid => Redeal(dealt)
      case Won(bidder, bid) =>
        var withBid := dealt.(highestBid := Some(bid), highestBidder := Some(bidder),
                          trump := Some(TrumpFromSelector(selector)));
        match DealRound(withBid)
        case Err(e) => Failed(e)
        case Ok(second) => Trumped(second)
  }

  /** A new round whose players hold no cards yet. */
  predicate Fresh(r: Round) {
    && |r.players| == PlayerCount && EmptyHanded(r.players)
    && 0 <= r.dealer < PlayerCount
    && r.ordering == PlayerOrdering(r.dealer)
    && IsShuffleOf(r.deck, FullDeck())
    && r.trump.None? && r.highestBidder.None? && r.highestBid.None?
  }

  lemma NewRoundFresh(players: seq<Player>, dealer: int, shuffled: seq<Card>)
    requires IsShuffleOf(shuffled, FullDeck())
    requires |players| == PlayerCount && EmptyHanded(players)
    requires 0 <= dealer <= 3
    ensures NewRound(players, dealer, shuffled).Ok? && Fresh(NewRound(players, dealer, shuffled).value)
  {
  }

  lemma FreshSeated(r: Round)
    requires Fresh(r)
    ensures Seated(r) && |r.deck| == 32 && SeatPermutation(r.ordering) && ValidOrdering(r.ordering)
  {
    assert |r.deck| == |multiset(r.deck)| == |multiset(FullDeck())|;
  }

  /** Under either rule, a fresh round ends with the cards to be dealt again
      exactly when the first seat of every turn passes; then each hand holds
      four cards, sixteen are left in the deck, and no bid is recorded. */
  lemma PlayFreshRedeal(rule: Rule, r: Round, responses: seq<string>, selector: int)
    requires Fresh(r) && 1 <= selector <= 4
    ensures Seated(r)
    ensures var p := PlayRound(rule, r, responses, selector);
      && (p.Redeal? <==> AllPass(responses, PlayerCount))
      && (p.Redeal? ==>
            && p.round.highestBid.None? && p.round.highestBidder.None? && p.round.trump.None?
            && |p.round.deck| == 16
            && forall i :: 0 <= i < |p.round.players| ==> |p.round.players[i].cards| == 4)
  {
    FreshSeated(r);
    FreshFirstDeal(r);
    AuctionNoBidIffAllPass(rule, r.ordering, responses);
  }

  /** A fresh round played with the corrected rotation never raises. Once
      the auction is won, the trump is the selected suit, the winner a seat
      at the table with a bid of at least 16, and the deck is dealt out. */
  lemma PlayFreshTrumped(r: Round, responses: seq<string>, selector: int)
    requires Fresh(r) && 1 <= selector <= 4
    ensures Seated(r)
    ensures var p := PlayRound(Corrected, r, responses, selector);
      && !p.Failed?
      && (p.Trumped? ==>
            && p.round.trump == Some(TrumpFromSelector(selector))
            && p.round.highestBid.Some? && p.round.highestBid.value >= MinBid
            && p.round.highestBidder.Some? && 0 <= p.round.highestBidder.value < PlayerCount
            && DealtOut(p.round))
  {
    FreshSeated(r);
    FreshFirstDeal(r);
    AuctionCorrectedNeverRaises(r.ordering, responses);
    match Auction(Corrected, r.ordering, responses)
    case Won(bidder, bid) =>
      PlayWon(Corrected, r, responses, selector, bidder, bid);
    case NoBid =>
    case Pending(_) =>
    case Raised(_) =>
  }

  /** After the first deal of a fresh round, four cards per hand and sixteen in the deck. */
  lemma FreshFirstDeal(r: Round)
    requires Fresh(r)
    ensures Seated(r) && DealRound(r).Ok?
    ensures var d := DealRound(r).value;
      && |d.deck| == 16 && d.ordering == r.ordering && d.dealer == r.dealer
      && d.highestBid.None? && d.highestBidder.None? && d.trump.None?
      && forall i :: 0 <= i < |d.players| ==> |d.players[i].cards| == 4
  {
    FreshSeated(r);
    var d := DealRound(r).value;
    DealGivesChunks(r.players, r.deck, r.ordering);
    forall i | 0 <= i < |d.players| ensures |d.players[i].cards| == 4 {
      var j := IndexOf(r.ordering, i);
      assert d.players[r.ordering[j]].cards == r.players[r.ordering[j]].cards + Chunk(r.deck, j);
    }
  }

  /** A won auction on a fresh round: the second deal empties the deck into the hands. */
  lemma FreshTwoDeals(r: Round, selector: int, bidder: int, bid: int)
    requires Fresh(r) && 1 <= selector <= 4
    requires bid >= MinBid && bidder in r.ordering
    ensures Seated(r) && DealRound(r).Ok?
    ensures var withBid := DealRound(r).value.(highestBid := Some(bid), highestBidder := Some(bidder),
                                          trump := Some(TrumpFromSelector(selector)));
      && Seated(withBid) && DealRound(withBid).Ok?
      && var t := DealRound(withBid).value;
      && t.trump == Some(TrumpFromSelector(selector))
      && t.highestBid == Some(bid) && t.highestBidder == Some(bidder) && 0 <= bidder < PlayerCount
      && DealtOut(t)
  {
    FreshSeated(r);
    TwoDealsEmptyTheDeck(r.players, r.deck, r.ordering);
    var d := DealRound(r).value;
    var withBid := d.(highestBid := Some(bid), highestBidder := Some(bidder), trump := Some(TrumpFromSelector(selector)));
    var t := DealRound(withBid).value;
    assert t.players == Deal(d.players, d.deck, r.ordering).value.0;
    assert bidder in r.ordering;
    HandsHoldTheDeck(t.players);
  }

  /** The whole deck dealt out: nothing left to draw, eight cards in each of
      the four hands, and the hands together holding every card once. */
  ghost predicate DealtOut(t: Round) {
    && t.deck == []
    && |t.players| == PlayerCount
    && (forall i :: 0 <= i < PlayerCount ==> |t.players[i].cards| == 8)
    && (forall c :: c in Hands(t.players) <==> WellFormed(c))
    && multiset(Hands(t.players)) == multiset(FullDeck())
  }

  lemma HandsHoldTheDeck(ps: seq<Player>)
    requires multiset(Hands(ps)) == multiset(FullDeck())
    ensures forall c :: c in Hands(ps) <==> WellFormed(c)
  {
    forall c ensures c in Hands(ps) <==> WellFormed(c) {
      FullDeckMembers(c);
      assert c in Hands(ps) <==> c in multiset(Hands(ps));
      assert c in FullDeck() <==> c in multiset(FullDeck());
    }
  }

  /** As written, a round never reaches the trump selection: after any bid
      the auction raises. */
  lemma PlayAsWrittenNeverTrumps(r: Round, responses: seq<string>, selector: int)
    requires Fresh(r) && 1 <= selector <= 4
    ensures Seated(r)
    ensures !PlayRound(AsWritten, r, responses, selector).Trumped?
    ensures PlayRound(AsWritten, r, responses, selector).Failed? ==>
      PlayRound(AsWritten, r, responses, selector).error == IndexError
  {
    FreshSeated(r);
    FreshFirstDeal(r);
    AuctionAsWrittenNeverWins(r.ordering, responses);
  }

  /** A fresh round whose auction is won goes on to the trump and the second deal. */
  lemma PlayWon(rule: Rule, r: Round, responses: seq<string>, selector: int, bidder: int, bid: int)
    requires Fresh(r) && 1 <= selector <= 4
    requires Auction(rule, r.ordering, responses) == Won(bidder, bid)
    requires bid >= MinBid && bidder in r.ordering
    ensures Seated(r)
    ensures var p := PlayRound(rule, r, responses, selector);
      && p.Trumped? && p.round.highestBidder == Some(bidder) && p.round.highestBid == Some(bid)
      && p.round.trump == Some(TrumpFromSelector(selector))
      && DealtOut(p.round)
  {
    FreshSeated(r);
    FreshFirstDeal(r);
    FreshTwoDeals(r, selector, bidder, bid);
  }

  /** A fresh round whose auction raises raises the same exception. */
  lemma PlayRaised(rule: Rule, r: Round, responses: seq<string>, selector: int, e: PyError)
    requires Fresh(r) && 1 <= selector <= 4
    requires Auction(rule, r.ordering, responses) == Raised(e)
    ensures Seated(r)
    ensures PlayRound(rule, r, responses, selector) == Failed(e)
  {
    FreshSeated(r);
    FreshFirstDeal(r);
  }

  /** The three seats after the dealer pass and the dealer accepts 16 (with
      dealer 0: seats 1, 2 and 3 pass and seat 0 bids). As written the round
      raises an IndexError. */
  lemma DealerTakesOpeningRaises(r: Round, responses: seq<string>, selector: int)
    requires Fresh(r) && 1 <= selector <= 4
    requires |responses| == 4 && AllPass(responses, 3) && !PlayerPassed(responses[3])
    ensures Seated(r)
    ensures PlayRound(AsWritten, r, responses, selector) == Failed(IndexError)
  {
    FreshSeated(r);
    DealerTakesOpening(AsWritten, r.ordering, responses);
    PlayRaised(AsWritten, r, responses, selector, IndexError);
  }

  /** The same answers with the corrected rotation: the dealer wins the bid,
      sets the trump, and the deck is dealt out. */
  lemma DealerTakesOpeningWins(r: Round, responses: seq<string>, selector: int)
    requires Fresh(r) && 1 <= selector <= 4
    requires |responses| == 4 && AllPass(responses, 3) && !PlayerPassed(responses[3])
    ensures Seated(r)
    ensures var p := PlayRound(Corrected, r, responses, selector);
      && p.Trumped? && p.round.highestBidder == Some(r.dealer) && p.round.highestBid == Some(MinBid)
      && p.round.trump == Some(TrumpFromSelector(selector))
      && DealtOut(p.round)
  {
    FreshSeated(r);
    DealerTakesOpening(Corrected, r.ordering, responses);
    PlayWon(Corrected, r, responses, selector, r.dealer, MinBid);
  }
}
