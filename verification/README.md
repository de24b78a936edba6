# Twenty-Nine: a verified model of the round logic

This project models the core of a small console Twenty-Nine card game: four
players in two partnerships, a 32-card deck (ace and 7 to king in four suits),
an auction for the right to name trump, and two deals of four cards each. The
model is written in Dafny as immutable datatypes and pure functions. The
verifier proves what each operation does.

The console is replaced by data.
- Each bidding prompt becomes the answer string it returned. The auction is
  then a step function over a finite list of answers (`Bidding.Step`,
  `Bidding.Run`, `Bidding.Auction`).
- The shuffled deck is a parameter of `Rounds.NewRound`. It is constrained
  only to be a rearrangement of the built deck (`Rounds.IsShuffleOf`).
- The trump prompt becomes the number it returned (`Rounds.TrumpFromSelector`).

Python exceptions become error results (`Base.Result`, `Base.PyError`),
raised where the code raises them (the seat lookups inside `bidding` are the exception, see "## Left out"):
- the dealer check;
- `list.index` on a seat that is not in the list;
- `list.remove` of an active seat that is not in the eligible list (a ValueError);
- `eligible_to_bid[1]` on a one-seat list;
- popping an empty deck;
- `self.players[index]` for a seat the players tuple does not have;
- `self.players[last_bidder]` with no last bidder (a TypeError);
- a card value outside the ace and 7..13.

The `isinstance` TypeErrors are left out (see "## Left out").

Modules:
- `Cards` and `TwentyNine`: suits, cards, the name and score tables, `str(card)` and `top_n_cards`.
- `Players`: a seat with its name and hand.
- `Dealing`: building the deck and `deal`.
- `Bidding`: `player_passed`, `_next_bidder` and the auction loop.
- `Rounds`: `Round.__init__`, the turn order, the trump selector and `play_round` end to end.
- `Game`: `Game.winner`.
- `Seqs`: sequence helpers.

Code and its descriptions do not always agree. The model follows the code:
- The trump prompt lists "1: Spade, 2: Heart, 3: Club, 4: Diamond". The code indexes `list(Suit)`, so 1 is Club, 2 Heart, 3 Diamond and 4 Spade (`Rounds.TrumpSelectorOrder`).
- `deal` appends to each hand with `+=` and nothing clears the hands, so hands accumulate. The end-to-end lemmas start from empty hands (`Rounds.Fresh`).

The auction is modelled under two rules (`Bidding.Rule`).
- `AsWritten` is the code: after any bid, the loop can only stop by raising an IndexError (see Findings).
- `Corrected` is the evident intent: a last bidder left alone ends the auction.
- The two rules agree wherever the code does not raise (`Bidding.AuctionAgrees`).

## Model

| member | source | states |
|---|---|---|
| Bidding.PlayerPassed | src/cards/round.py:11-13 | an answer is a pass exactly when it is the one-character string "n" or "N" |
| Bidding.NextBidder | src/cards/round.py:65-73 | ValueError exactly when a last bidder exists and is not in a non-empty list; IndexError exactly when the code as written meets the last bidder alone in the list; otherwise the result is -1 or an eligible seat, -1 only for an empty list (or, corrected, the lone last bidder), and never the last bidder itself |
| Bidding.NextBidderCases | src/cards/round.py:65-73 | the rotation case by case: empty list gives -1; no last bidder gives the first seat; a last bidder past the front gives the first seat; a last bidder at the front gives the second seat; a lone last bidder raises as written and gives -1 corrected |
| Bidding.Initial | src/cards/round.py:122-128 | the loop starts with the whole turn order eligible, its first seat active, no bid, minimum bid 16 and a BID to answer |
| Bidding.Step | src/cards/round.py:130-158 | one pass through the loop body for the active seat's answer; it has no contract of its own, and `Bidding.PassStep`, `Bidding.BidStep`, `Bidding.StayStep` and `Bidding.StepKeepsInvariant` state what it does |
| Bidding.Run | src/cards/round.py:129-158 | the loop over a finite list of answers; no contract of its own, stated by `Bidding.RunKeepsInvariant`, `Bidding.RunAppend` and `Bidding.RunBeforeAnyBid` |
| Bidding.Conclude | src/cards/round.py:160-167 | the code after the loop; no contract of its own, stated by `Bidding.AuctionOutcomes` and `Bidding.AuctionNoBidIffAllPass` |
| Bidding.Auction | src/cards/round.py:116-167 | `bidding` on a turn order; no contract of its own, stated by `Bidding.AuctionOutcomes`, `Bidding.AuctionNoBidIffAllPass` and `Bidding.AuctionAgrees` |
| Bidding.InitialInv | src/cards/round.py:122-128 | the loop invariant holds at the start for any turn order without repeats or negative seats |
| Bidding.PassStep | src/cards/round.py:137-144 | a pass removes the active seat from the eligible list, keeps the bid, the minimum and the last bidder, and resets the action to BID; it leaves the loop only with nobody left or, corrected, with the last bidder alone; as written it raises an IndexError only when a bid stands and two seats were eligible |
| Bidding.PassStepIs | src/cards/round.py:137-144 | once the rotation has named the next seat, a pass either leaves the loop (on -1) or hands the turn to that seat with a BID to answer |
| Bidding.PassRaises | src/cards/round.py:138-139 | the rotation after a pass fails only as written, with a bid standing and only the last bidder left |
| Bidding.PassCloses | src/cards/round.py:139-141 | a pass that finds nobody to move to leaves the loop in a finished state; as written this happens only before any bid |
| Bidding.PassMovesOn | src/cards/round.py:139-143 | a pass that names a next seat keeps the loop invariant |
| Bidding.PassLeavesEligible | src/cards/round.py:138 | removing the passing seat keeps the list a subsequence of the turn order without repeats, removes exactly that seat, and before any bid drops the front seat |
| Bidding.BidStep | src/cards/round.py:145-151 | an accepted BID sets the bid to the minimum and raises the minimum by one, records the bidder, asks for a STAY next only if a bid already stood, and hands the turn to the first eligible seat, or the second when the bidder is the first; the loop goes on exactly when another seat is eligible; a bidder left alone, which happens only before any bid, raises the IndexError as written and closes the auction corrected |
| Bidding.StayStep | src/cards/round.py:153-158 | an accepted STAY keeps both numbers, records the stayer as last bidder, asks for a BID next, and hands the turn to the first eligible seat, or the second when the stayer is the first; it never raises and never leaves the loop |
| Bidding.StepKeepsInvariant | src/cards/round.py:129-158 | every step keeps the invariant: eligible is a subsequence of the turn order without repeats, active is eligible, a last bidder is eligible and differs from active, and a standing bid is the minimum minus one and at least 16; a bid once made stays; the only exception is the as-written IndexError |
| Bidding.RunKeepsInvariant | src/cards/round.py:129-158 | the invariant holds after any finite list of answers; as written the loop is only ever left with no bid |
| Bidding.AuctionOutcomes | src/cards/round.py:116-167 | as written nobody wins and the only exception is IndexError; corrected, nothing is raised and a winner is a seat of the turn order with a bid of at least 16 |
| Bidding.AuctionAsWrittenNeverWins | src/cards/round.py:160-164 | as written the success branch is never reached and the only exception raised is IndexError |
| Bidding.AuctionCorrectedNeverRaises | src/cards/round.py:160-164 | with the corrected rotation the auction never raises, and a winner holds a seat of the turn order and a bid of at least 16 |
| Bidding.RunBeforeAnyBid | src/cards/round.py:137-141 | before any bid, the loop closes without a bid exactly when every eligible seat passes in turn |
| Bidding.FirstPassBeforeAnyBid | src/cards/round.py:137-141 | the same when the first answer is a pass |
| Bidding.FirstAcceptBeforeAnyBid | src/cards/round.py:145-151 | an accepting first answer means the loop does not close bidless and not every seat passed |
| Bidding.AuctionNoBidIffAllPass | src/cards/round.py:166-167 | `bidding` returns False exactly when the first answers, one per seat of the turn order, are all passes |
| Bidding.NextBidderAgrees | src/cards/round.py:65-73 | the two rotation rules give the same result unless the written one raises an IndexError |
| Bidding.StepAgrees | src/cards/round.py:137-158 | from a reachable state the corrected step equals the written one unless the written one raises |
| Bidding.PassAgrees | src/cards/round.py:137-144 | the same for a pass |
| Bidding.AcceptAgrees | src/cards/round.py:145-158 | the same for an accepted BID or STAY |
| Bidding.RunAgrees | src/cards/round.py:129-158 | over any list of answers the corrected loop equals the written one unless the written one raises |
| Bidding.AuctionAgrees | src/cards/round.py:116-167 | the corrected auction ends exactly as the written one whenever the written one does not raise |
| Bidding.RunAppend | src/cards/round.py:129-158 | running two lists of answers in turn equals running them joined |
| Bidding.BidThenStay | src/cards/round.py:145-158 | with at least two seats and a bid standing, a BID then a STAY raises the bid by exactly one and asks for a BID again |
| Bidding.RaisesBy | src/cards/round.py:145-158 | n rounds of BID and STAY raise the standing bid by n and keep every seat eligible |
| Bidding.NoBidCeiling | src/cards/round.py:145-158 | there is no bid ceiling: 2n+1 acceptances from the start leave the auction open with a bid of 16+n |
| Bidding.PassesKeepAsking | src/cards/round.py:137-144 | passes that leave someone besides the last bidder keep the auction open, shrink the list by one each and keep the bid; before any bid they drop the front seats |
| Bidding.PassKeepsAsking | src/cards/round.py:137-144 | the same for a single pass |
| Bidding.LastRivalPasses | src/cards/round.py:69-72 | when the last rival of the standing bidder passes, the code as written raises an IndexError; corrected, the auction closes with the bidder alone |
| Bidding.AloneAcceptsOpening | src/cards/round.py:145-151 | when the only seat left accepts 16, the code as written raises an IndexError; corrected, that seat holds the bid |
| Bidding.DealerTakesOpening | src/cards/round.py:116-167 | three passes then an acceptance: as written the auction raises an IndexError; corrected, the fourth seat (the dealer) wins with 16 |
| Bidding.OpeningBidStands | src/cards/round.py:116-167 | an opening acceptance then three passes: as written the auction raises an IndexError; corrected, the first seat wins with 16 |
| Bidding.DealerAlone | src/cards/round.py:137-144 | three passes before any bid leave only the fourth seat eligible and active |
| Rounds.PlayerOrdering | src/cards/round.py:42-44 | the turn order has four seats, starts left of the dealer, ends with the dealer's seat, steps one seat at a time, and visits each seat 0..3 exactly once |
| Rounds.OrderingRotates | src/cards/round.py:44 | reducing the dealer modulo 4 does not change the rotation |
| Rounds.RotationOfSeat | src/cards/round.py:44 | for each dealer seat 0..3 the order ends with the dealer, steps by one and is a permutation of the seats |
| Rounds.PlayerOrderingCases | tests/test_round.py:15-42 | dealers 0, 1, 2 and 3 give the orders [1,2,3,0], [2,3,0,1], [3,0,1,2] and [0,1,2,3] |
| Rounds.NewRound | src/cards/round.py:30-40 | ValueError exactly for a dealer outside 0..3; IndexError exactly for a dealer seat the players tuple lacks; otherwise the players, the dealer, the turn order ending with the dealer, and the shuffled deck, with trump, highest bidder and highest bid unset |
| Rounds.NewRoundDeck | src/cards/round.py:46-53 | the deck of a new round has 32 cards without repeats, holding exactly the well-formed cards |
| Rounds.NewRoundFresh | src/cards/round.py:30-40 | a valid dealer and empty-handed players give a fresh round |
| Rounds.FreshSeated | src/cards/round.py:36 | a fresh round's turn order is a permutation of the seats and its deck has 32 cards |
| Rounds.DealRound | src/cards/round.py:55-62 | `deal` succeeds exactly when every seat of the turn order is at the table and the deck holds four cards per seat, and otherwise raises an IndexError; it changes only the hands and the deck, and the deck loses exactly its top four cards per seat |
| Rounds.PlayRound | src/cards/round.py:189-200 | `play_round`; no contract of its own, stated by `Rounds.PlayFreshRedeal`, `Rounds.PlayFreshTrumped`, `Rounds.PlayWon`, `Rounds.PlayRaised` and `Rounds.PlayAsWrittenNeverTrumps` |
| Rounds.FreshFirstDeal | src/cards/round.py:55-62 | the first deal of a fresh round leaves four cards in every hand and sixteen in the deck |
| Rounds.TrumpFromSelector | src/cards/round.py:187 | selector k picks the suit at position k-1 of the enum |
| Rounds.TrumpSelectorOrder | src/cards/round.py:187 | the selector is a bijection onto the suits: 1 Club, 2 Heart, 3 Diamond, 4 Spade |
| Rounds.PlayFreshRedeal | src/cards/round.py:189-195 | under either rule a fresh round ends with a redeal exactly when all four seats pass; then no bid or trump is recorded, each hand holds four cards and sixteen remain |
| Rounds.PlayFreshTrumped | src/cards/round.py:189-200 | corrected, a fresh round never fails; when won, the trump is the selected suit, the winner a seat 0..3 with a bid of at least 16, and the deck is dealt out (8 cards per hand, together exactly the 32 cards) |
| Rounds.PlayWon | src/cards/round.py:189-200 | a won auction on a fresh round records the bidder and the bid, sets the selected trump, and the second deal empties the deck into the hands |
| Rounds.PlayRaised | src/cards/round.py:189-191 | an auction that raises makes the round fail with the same exception |
| Rounds.FreshTwoDeals | src/cards/round.py:196-197 | the second deal after a won auction keeps the recorded bid, bidder and trump, and leaves the deck dealt out |
| Rounds.HandsHoldTheDeck | src/cards/round.py:46-50 | hands holding the built deck's cards hold exactly the well-formed cards |
| Rounds.PlayAsWrittenNeverTrumps | src/cards/round.py:189-200 | as written a round never reaches the trump choice, and it can only fail with IndexError |
| Rounds.DealerTakesOpeningRaises | src/cards/round.py:69-72 | as written, three passes followed by the dealer accepting 16 make the round fail with IndexError |
| Rounds.DealerTakesOpeningWins | src/cards/round.py:160-164 | corrected, the same answers make the dealer the highest bidder at 16, set the selected trump and deal the deck out |
| Dealing.CardValueAt | src/cards/round.py:47 | the values of a suit are the ace first, then 7 up to the king |
| Dealing.SuitAt | src/cards/card.py:10-13 | the suits are listed in enum order |
| Dealing.MakeCard | src/cards/round.py:50 | a card built from an accepted value keeps that suit and value and is well formed |
| Dealing.SuitCards | src/cards/round.py:50 | one suit's cards are the given values, in order, as cards of that suit |
| Dealing.BuildDeck | src/cards/round.py:49-50 | the built deck has eight cards per suit |
| Dealing.FullDeck | src/cards/round.py:46-50 | the deck before the shuffle; no contract of its own, stated by `Dealing.FullDeckDistinct`, `Dealing.FullDeckMembers`, `Dealing.FullDeckCount` and `Dealing.FullDeckScore` |
| Dealing.BuildDeckAt | src/cards/round.py:49-50 | card 8s+k of the built deck is value k of suit s |
| Dealing.BuildDeckPositions | src/cards/round.py:49-50 | different positions of the built deck hold different cards |
| Dealing.FullDeckDistinct | src/cards/round.py:46-50 | the built deck has 32 cards and no card twice |
| Dealing.FullDeckMembers | src/cards/round.py:46-50 | a card is in the built deck exactly when its value is accepted |
| Dealing.FullDeckCount | src/cards/round.py:46-50 | the built deck holds each well-formed card exactly once and nothing else |
| Dealing.SuitScore | src/cards/twentynine.py:29-40 | the eight cards of a suit score 7 in total |
| Dealing.SuitScoreHigh | src/cards/twentynine.py:29-40 | the ten, jack, queen and king of a suit score 4 in total |
| Dealing.BuildDeckScore | src/cards/round.py:49-50 | a deck built from n suits is well formed and scores 7n |
| Dealing.FullDeckScore | src/cards/round.py:46-50 | the 32-card deck scores 28 |
| Dealing.TotalScoreAppend | src/cards/twentynine.py:53-56 | the score of two lists of cards joined is the sum of their scores |
| Dealing.Deal | src/cards/round.py:55-62 | `deal` succeeds exactly when every visited seat is at the table and the deck holds four cards per visit, and otherwise raises an IndexError; it keeps the seats and their names, leaves unvisited seats unchanged, and leaves the deck without its top 4 cards per visit |
| Dealing.DealtFirst | src/cards/round.py:61-62 | defines the table after the first seat's draw and keeps its size; `Dealing.DealFirstSeat` states that this seat takes the top group |
| Dealing.DealStep | src/cards/round.py:61-62 | dealing is the first seat's draw followed by dealing the rest of the order from what is left |
| Dealing.DealFirstSeat | src/cards/round.py:61-62 | the first seat in the order ends with its hand plus the top four cards, last card first |
| Dealing.DealGivesChunk | src/cards/round.py:55-62 | with each seat visited once, the j-th seat in the order receives the j-th group of four from the end of the deck, last card first |
| Dealing.LaterSeat | src/cards/round.py:61-62 | a seat after the first is untouched by the first draw and is dealt by the rest of the order |
| Dealing.DealGivesChunks | src/cards/round.py:55-62 | every seat of the order receives its own group of four |
| Dealing.ChunkAfterDraw | src/cards/twentynine.py:106 | after the top four cards are drawn, group j-1 of what is left is group j of the deck |
| Dealing.DrawnIsTop | src/cards/round.py:61-62 | the cards the first n seats draw, in drawing order, are the top 4n cards of the deck, last card first |
| Dealing.DealSplitsDeck | src/cards/round.py:55-62 | the deck after a deal, followed by all dealt cards taken back in reverse, is the deck before it |
| Dealing.HandsAppend | src/cards/round.py:62 | adding cards to one hand adds exactly those cards to the table |
| Dealing.DealConserves | src/cards/round.py:55-62 | a deal moves cards from the deck to the hands and loses or adds none |
| Dealing.FirstDrawConserves | src/cards/round.py:62 | the first seat's draw moves four cards from the deck to its hand |
| Dealing.ChunkZero | src/cards/twentynine.py:106 | the top group and the rest of the deck make up the deck |
| Dealing.HandsCountTwo | src/cards/round.py:62 | a card held in two different hands is counted twice at the table |
| Dealing.HandsCountOne | src/cards/round.py:62 | a card in one hand is counted at the table |
| Dealing.EmptyHands | src/cards/round.py:62 | empty hands hold no card |
| Dealing.TwoDealsGroups | src/cards/round.py:189-197 | two deals of a 32-card deck empty it, and each seat receives its group from each deal |
| Dealing.TwoDealsConserve | src/cards/round.py:189-197 | after two deals to empty hands, the hands together hold exactly the deck's cards |
| Dealing.TwoDealsEmptyTheDeck | src/cards/round.py:189-197 | two deals to empty hands leave the deck empty and eight cards in every hand, the hands together hold the deck, and with a deck without repeats no card is in two hands |
| Dealing.FromEmptyHands | src/cards/round.py:62 | hands that started empty hold just their two groups |
| Dealing.EightEach | src/cards/round.py:189-197 | every seat holds two groups of four |
| Dealing.ChunkOfRest | src/cards/round.py:196-197 | the groups of the second deal are the next four groups of the original deck |
| Dealing.HandsDisjoint | src/cards/round.py:46-62 | when the hands hold a deck without repeats, no card is in two hands |
| TwentyNine.NameOf | src/cards/twentynine.py:14-27 | the name table succeeds exactly for the ace and 7..13, with a one- or two-character name |
| TwentyNine.Name | src/cards/twentynine.py:62-65 | the `name` property of a card; no contract of its own, stated by `TwentyNine.NameTable` and `TwentyNine.NameInjective` through `TwentyNine.NameOf` |
| TwentyNine.NameTable | src/cards/twentynine.py:14-27 | 1 is "A", 11 "J", 12 "Q", 13 "K", and 7 to 10 are their decimal strings |
| TwentyNine.NameInjective | src/cards/twentynine.py:14-27 | different accepted values have different names |
| TwentyNine.ScoreOf | src/cards/twentynine.py:29-40 | the score table succeeds exactly for the ace and 7..13, with a score in 0..3 |
| TwentyNine.ScoreTable | src/cards/twentynine.py:29-40 | the jack scores 3, the nine 2, the ace and the ten 1, and the 7, 8, queen and king 0 |
| TwentyNine.NewCard | src/cards/twentynine.py:9-12 | building a card succeeds exactly for an accepted value, so the error branches of the name and score tables are never reached; the card keeps its suit and value |
| TwentyNine.Score | src/cards/twentynine.py:53-56 | a card's score is in 0..3 |
| TwentyNine.ToString | src/cards/twentynine.py:71-72 | a card prints as its suit symbol, a dash and its name |
| TwentyNine.ToStringInjective | src/cards/twentynine.py:71-72 | two cards that print the same are the same card |
| TwentyNine.TopNCards | src/cards/twentynine.py:92-106 | popping n cards succeeds exactly when n is at most the deck size; n <= 0 pops nothing; otherwise it returns n cards, the last card first, and keeps the first len-n cards unchanged |
| TwentyNine.TopNConserves | src/cards/twentynine.py:92-106 | the cards left plus the popped cards put back in reverse are the deck, as lists and as multisets |
| Cards.SuitIndex | src/cards/card.py:7-13 | each suit sits at its position in declaration order |
| Cards.SymbolInjective | src/cards/card.py:10-13 | different suits have different symbols |
| Game.WinningSeats | src/cards/game.py:21-27 | a result names partners i and i+2 whose side qualifies; the first partnership wins whenever it qualifies; nobody wins exactly when neither side has its own +6 or its opponents' -6 |
| Game.Winner | src/cards/game.py:13-27 | the winner is the pair of players in the winning seats, and None exactly when no partnership qualifies |
| Game.InitialNoWinner | src/cards/game.py:11 | the starting tallies (0, 0) decide nothing |
| Game.OnlyExactSixWins | src/cards/game.py:21-27 | tallies strictly between -6 and 6 give no winner |
| Game.FirstCheckWins | src/cards/game.py:21-25 | (6, 6), (-6, -6) and (6, -6) name players 0 and 2 |
| Game.WinnerSwapped | src/cards/game.py:21-25 | when only one side qualifies, swapping the tallies names the other partnership |

## Left out

- The `Round.bid` prompt loop (src/cards/round.py:76-114) is replaced by the answer it returns. The auction reads one answer per step.
- The `get_trump` re-prompt loop and its `int()` error handling (src/cards/round.py:169-186) are replaced by the number the loop returns.
- `print` output everywhere, and the printing at the end of `play_round`, have no effect on state.
- `Deck.shuffle` (src/cards/card.py:62-64) is randomness. The shuffled deck is a parameter, constrained to be a rearrangement of the built deck.
- `Game.play` (src/cards/game.py:29-35) is an endless console loop: it never changes the tallies or the dealer.
- The ABC and property machinery of src/cards/card.py is not modelled. Neither are the `isinstance` checks and the raising setters of src/cards/twentynine.py:58-69 and 85-90, because typing rules those cases out.
- `Deck.__str__` and `Card.__repr__` are not modelled; only `str` of a Twenty-Nine card is.
- main.py is an entry point only.
- Rounds.NewRound: `dealer` is kept as a seat index, and the turn order is computed from it directly. The source stores `players[dealer]` and recovers the seat with `players.index`. The two agree because the four players are distinct objects.
- Rounds.PlayRound: the highest bidder is recorded as a seat index, not as the player object.
- TwentyNine.TopNCards: when the deck runs out, the result is the IndexError alone. The cards popped before the failure are not modelled. The TypeError for a count that is not an `int` (src/cards/twentynine.py:104-105) is not modelled, because the count is an integer by type.
- Dealing.Deal: Python's negative list indices are not modelled; a turn-order seat must not be negative. Every turn order is computed modulo 4 (`Rounds.PlayerOrdering`), so none is. A seat past the end of the players tuple is an IndexError, as in the code. The hands drawn before such a failure are not modelled.
- Bidding.AuctionOutcomes: stated for turn orders without repeats or negative seats (`Bidding.ValidOrdering`). Every turn order built by `Rounds.PlayerOrdering` is one.
- Bidding.Auction: `bidding` looks seats up in the players tuple (`self.players[active]` at src/cards/round.py:131, `self.players[last_bidder]` at lines 151, 157, 161 and 163). These lookups are not modelled, because the auction sees only the turn order. They never fail inside `play_round`: `deal` runs first and raises the same IndexError for a seat the tuple lacks (`Rounds.DealRound`). Every seat the auction names comes from the turn order (`Bidding.RunKeepsInvariant`).
- Bidding.Run: an auction has no termination measure. The model runs it over a finite list of answers and reports `Pending` when the answers run out.

## Findings

| source | as written | input that shows it | evidently intended | confidence | as-written member | corrected member |
|---|---|---|---|---|---|---|
| src/cards/round.py:69-72 | `_next_bidder` returns `eligible_to_bid[1]` whenever the last bidder is first in the list. After any bid the last bidder stays eligible, so -1 is never returned. The loop can only end by the IndexError of a one-seat list, and the success branch at lines 160-164 is unreachable. | dealer 0, answers "n", "n", "n", "y" (the dealer accepts 16 after three passes); or "y", "n", "n", "n" | a last bidder left alone ends the auction, and that seat wins with the standing bid | not executed | Rounds.DealerTakesOpeningRaises | Rounds.DealerTakesOpeningWins |
| src/cards/round.py:160-164 | `bidding` can never return True, so `play_round` never reaches `get_trump` or the second deal | any list of answers on any turn order | some auctions are won, the trump is set and the deck is dealt out | not executed | Bidding.AuctionAsWrittenNeverWins | Bidding.AuctionCorrectedNeverRaises |
