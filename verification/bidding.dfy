/** The auction that decides who names trump (round.py: `player_passed`,
    `_next_bidder`, `bidding`). The console prompt of each turn is replaced by
    the answer it returned, so an auction is driven by a finite list of answers.

    The rotation rule and the loop are defined once, for two rules: the code
    as written, and the correction in which a last bidder left alone ends the
    auction instead of indexing past the end of the list. */
module Bidding {
  import opened Base
  import opened Seqs

  /** `BidAction`: what the next accepting answer means. */
  datatype BidAction = Bid | Pass | Stay

  /** `Round.MIN_BID`: the opening bid. */
  const MinBid := 16

  /** Which version of the rotation rule and loop to run. */
  datatype Rule = AsWritten | Corrected

  /** `player_passed`: only a lone "n" or "N" is a pass. */
  predicate PlayerPassed(choice: string)
    ensures PlayerPassed(choice) <==> |choice| == 1 && (choice[0] == 'n' || choice[0] == 'N')
  {
    choice == "n" || choice == "N"
  }

  /** `_next_bidder`: an empty list gives the sentinel -1; before any bid the
      first eligible seat acts; otherwise the turn goes to the first seat, or
      to the second when the last bidder is the first. `.index` raises a
      ValueError for a seat not in the list; `eligible[1]` raises an IndexError
      when the last bidder is the only seat left, which the corrected rule turns
      into the sentinel. */
  function NextBidder(rule: Rule, eligible: seq<int>, lastBidder: Option<int>): (r: Result<int>)
    ensures r == Err(ValueError) <==> |eligible| > 0 && lastBidder.Some? && lastBidder.value !in eligible
    ensures r == Err(IndexError) <==> rule == AsWritten && lastBidder.Some? && eligible == [lastBidder.value]
    ensures r.Ok? ==> r.value == -1 || r.value in eligible
    ensures r.Ok? && r.value == -1 && -1 !in eligible ==>
      eligible == [] || (rule == Corrected && lastBidder.Some? && eligible == [lastBidder.value])
    ensures r.Ok? && Distinct(eligible) && lastBidder.Some? && r.value != -1 ==> r.value != lastBidder.value
  {
    if |eligible| == 0 then Ok(-1)
    else if lastBidder.None? then Ok(eligible[0])
    else if lastBidder.value !in eligible then Err(ValueError)
    else if IndexOf(eligible, lastBidder.value) > 0 then Ok(eligible[0])
    else if |eligible| >= 2 then Ok(eligible[1])
    else
      assert eligible == [lastBidder.value];
      match rule
      case AsWritten => Err(IndexError)
      case Corrected => Ok(-1)
  }

  /** The position rules of the rotation, case by case. */
  lemma NextBidderCases(rule: Rule, eligible: seq<int>, last: int)
    ensures NextBidder(rule, [], Some(last)) == Ok(-1) && NextBidder(rule, [], None) == Ok(-1)
    ensures |eligible| > 0 ==> NextBidder(rule, eligible, None) == Ok(eligible[0])
    ensures last in eligible && IndexOf(eligible, last) > 0 ==> NextBidder(rule, eligible, Some(last)) == Ok(eligible[0])
    ensures |eligible| >= 2 && eligible[0] == last ==> NextBidder(rule, eligible, Some(last)) == Ok(eligible[1])
    ensures NextBidder(AsWritten, [last], Some(last)) == Err(IndexError)
    ensures NextBidder(Corrected, [last], Some(last)) == Ok(-1)
  {
  }

  /** The loop variables of `bidding`; seats are indices into the players. */
  datatype State = State(
    eligible: seq<int>,
    active: int,
    lastBidder: Option<int>,
    currentBid: Option<int>,
    minBid: int,
    nextAction: BidAction)

  /** After one answer the auction is still asking, has left the loop, or
      has raised an exception. */
  datatype StepResult = Asking(state: State) | Closed(state: State) | Crashed(error: PyError)

  /** Python truthiness of `current_bid`: None and 0 are false. */
  predicate Truthy(bid: Option<int>) {
    bid.Some? && bid.value != 0
  }

  /** The first seat, the opening bid and nothing bid yet. */
  function Initial(ordering: seq<int>): (s: State)
    requires |ordering| > 0
    ensures s.eligible == ordering && s.active == ordering[0]
    ensures s.lastBidder.None? && s.currentBid.None? && s.minBid == MinBid && s.nextAction == Bid
  {
    State(ordering, ordering[0], None, None, MinBid, Bid)
  }

  /** One pass through the body of the `while True` loop of `bidding`, given
      the active seat's answer. */
  function Step(rule: Rule, s: State, response: string): StepResult {
    if PlayerPassed(response) then
      if s.active !in s.eligible then Crashed(ValueError)
      else
        var eligible := RemoveFirst(s.eligible, s.active);
        match NextBidder(rule, eligible, s.lastBidder)
        case Err(e) => Crashed(e)
        case Ok(next) =>
          if next == -1 then Closed(s.(eligible := eligible))
          else Asking(s.(eligible := eligible, active := next, nextAction := Bid))
    else if s.nextAction == Bid then
      match NextBidder(rule, s.eligible, Some(s.active))
      case Err(e) => Crashed(e)
      case Ok(next) =>
        var t := State(s.eligible, next, Some(s.active), Some(s.minBid), s.minBid + 1,
                       if Truthy(s.currentBid) then Stay else Bid);
        if rule == Corrected && next == -1 then Closed(t.(active := s.active)) else Asking(t)
    else
      match NextBidder(rule, s.eligible, Some(s.active))
      case Err(e) => Crashed(e)
      case Ok(next) =>
        var t := s.(active := next, lastBidder := Some(s.active), nextAction := Bid);
        if rule == Corrected && next == -1 then Closed(t.(active := s.active)) else Asking(t)
  }

  /** The loop over a finite list of answers; `Asking` when the answers run out. */
  function Run(rule: Rule, s: State, responses: seq<string>): StepResult
    decreases |responses|
  {
    if responses == [] then Asking(s)
    else
      match Step(rule, s, responses[0])
      case Asking(t) => Run(rule, t, responses[1..])
      case other => other
  }

  /** What `bidding` ends with: still waiting for an answer, a winner with the
      winning bid, nobody bidding (`False`), or an exception. */
  datatype Outcome = Pending(state: State) | Won(bidder: int, bid: int) | NoBid | Raised(error: PyError)

  /** The code after the loop: a truthy bid is won by the last bidder. */
  function Conclude(s: State): Outcome {
    if Truthy(s.currentBid) then
      if s.lastBidder.None? then Raised(TypeError) else Won(s.lastBidder.value, s.currentBid.value)
    else NoBid
  }

  /** `bidding` on the given turn order; `eligible_to_bid[0]` of an empty
      order is an IndexError. */
  function Auction(rule: Rule, ordering: seq<int>, responses: seq<string>): Outcome {
    if |ordering| == 0 then Raised(IndexError)
    else
      match Run(rule, Initial(ordering), responses)
      case Asking(s) => Pending(s)
      case Closed(s) => Conclude(s)
      case Crashed(e) => Raised(e)
  }

  /** A turn order the rotation can work with: no seat twice, and no seat that
      could be mistaken for the -1 sentinel. */
  predicate ValidOrdering(ordering: seq<int>) {
    Distinct(ordering) && forall i :: 0 <= i < |ordering| ==> ordering[i] >= 0
  }

  /** What holds at the top of every iteration of the loop. */
  predicate Inv(ordering: seq<int>, s: State) {
    && IsSubseq(s.eligible, ordering)
    && Distinct(s.eligible)
    && (forall x :: x in s.eligible ==> x >= 0)
    && s.active in s.eligible
    && (s.lastBidder.Some? ==> s.lastBidder.value in s.eligible && s.lastBidder.value != s.active)
    && (s.lastBidder.None? ==> s.active == s.eligible[0])
    && (s.lastBidder.Some? <==> s.currentBid.Some?)
    && (s.nextAction != Bid ==> s.currentBid.Some?)
    && (s.currentBid.None? ==> s.minBid == MinBid)
    && (s.currentBid.Some? ==> s.currentBid.value == s.minBid - 1 && s.currentBid.value >= MinBid)
  }

  /** What holds when the loop is left: with no bid nobody is left; with a bid
      the last bidder is the only seat left and the bid is at least the opening bid. */
  predicate Finished(ordering: seq<int>, t: State) {
    && IsSubseq(t.eligible, ordering)
    && (t.currentBid.None? ==> t.eligible == [])
    && (t.currentBid.Some? ==>
          t.lastBidder.Some? && t.eligible == [t.lastBidder.value] && t.currentBid.value >= MinBid)
  }

  lemma InitialInv(ordering: seq<int>)
    requires ValidOrdering(ordering) && |ordering| > 0
    ensures Inv(ordering, Initial(ordering))
  {
    SubseqRefl(ordering);
  }

  /** A pass: the passing seat leaves the eligible list and nothing else about
      the bidding changes. */
  lemma PassStep(rule: Rule, ordering: seq<int>, s: State, response: string)
    requires Inv(ordering, s) && PlayerPassed(response)
    ensures match Step(rule, s, response)
      case Asking(t) =>
        && Inv(ordering, t) && t.eligible == RemoveFirst(s.eligible, s.active)
        && t.currentBid == s.currentBid && t.minBid == s.minBid && t.lastBidder == s.lastBidder
        && t.nextAction == Bid
      case Closed(t) =>
        && Finished(ordering, t) && t.eligible == RemoveFirst(s.eligible, s.active)
        && t.currentBid == s.currentBid && t.lastBidder == s.lastBidder
        && (rule == AsWritten ==> s.currentBid.None?)
      case Crashed(e) => e == IndexError && rule == AsWritten && s.currentBid.Some? && |s.eligible| == 2
  {
    var e := RemoveFirst(s.eligible, s.active);
    PassLeavesEligible(ordering, s);
    match NextBidder(rule, e, s.lastBidder)
    case Err(err) =>
      PassRaises(rule, ordering, s, response, e, err);
    case Ok(next) =>
      if next == -1 {
        PassCloses(rule, ordering, s, e);
        PassStepIs(rule, s, response, e, next);
      } else {
        PassMovesOn(rule, ordering, s, e, next);
        PassStepIs(rule, s, response, e, next);
      }
  }

  /** The step a pass takes once the rotation has named the next seat. */
  lemma PassStepIs(rule: Rule, s: State, response: string, e: seq<int>, next: int)
    requires PlayerPassed(response) && s.active in s.eligible && e == RemoveFirst(s.eligible, s.active)
    requires NextBidder(rule, e, s.lastBidder) == Ok(next)
    ensures Step(rule, s, response) ==
      if next == -1 then Closed(s.(eligible := e))
      else Asking(s.(eligible := e, active := next, nextAction := Bid))
  {
  }

  /** The rotation fails after a pass only on the one-seat list, with a bid standing. */
  lemma PassRaises(rule: Rule, ordering: seq<int>, s: State, response: string, e: seq<int>, err: PyError)
    requires Inv(ordering, s) && PlayerPassed(response) && e == RemoveFirst(s.eligible, s.active)
    requires forall x :: x in e <==> x in s.eligible && x != s.active
    requires NextBidder(rule, e, s.lastBidder) == Err(err)
    ensures Step(rule, s, response) == Crashed(err)
    ensures err == IndexError && rule == AsWritten && s.currentBid.Some? && |s.eligible| == 2
  {
  }

  /** The rotation finds nobody after a pass: the loop is left. */
  lemma PassCloses(rule: Rule, ordering: seq<int>, s: State, e: seq<int>)
    requires Inv(ordering, s) && e == RemoveFirst(s.eligible, s.active)
    requires IsSubseq(e, ordering) && Distinct(e) && -1 !in e
    requires forall x :: x in e <==> x in s.eligible && x != s.active
    requires NextBidder(rule, e, s.lastBidder) == Ok(-1)
    ensures Finished(ordering, s.(eligible := e))
    ensures rule == AsWritten ==> s.currentBid.None?
  {
  }

  /** The rotation names the next seat after a pass. */
  lemma PassMovesOn(rule: Rule, ordering: seq<int>, s: State, e: seq<int>, next: int)
    requires Inv(ordering, s) && e == RemoveFirst(s.eligible, s.active)
    requires IsSubseq(e, ordering) && Distinct(e) && -1 !in e
    requires forall x :: x in e ==> x >= 0
    requires forall x :: x in e <==> x in s.eligible && x != s.active
    requires s.lastBidder.None? ==> e == s.eligible[1..]
    requires NextBidder(rule, e, s.lastBidder) == Ok(next) && next != -1
    ensures Inv(ordering, s.(eligible := e, active := next, nextAction := Bid))
  {
  }

  /** The eligible list after the active seat passes. */
  lemma PassLeavesEligible(ordering: seq<int>, s: State)
    requires Inv(ordering, s)
    ensures var e := RemoveFirst(s.eligible, s.active);
      && IsSubseq(e, ordering) && Distinct(e) && -1 !in e
      && (forall x :: x in e ==> x >= 0)
      && (forall x :: x in e <==> x in s.eligible && x != s.active)
      && (s.lastBidder.None? ==> e == s.eligible[1..])
  {
    var e := RemoveFirst(s.eligible, s.active);
    DistinctRemoveFirst(s.eligible, s.active);
    SubseqRemoveFirst(s.eligible, s.active);
    SubseqTrans(e, s.eligible, ordering);
    if s.lastBidder.None? {
      RemoveHead(s.eligible);
    }
  }

  /** An accepted BID: the bid becomes the minimum bid, the minimum goes up by
      one, the bidder becomes the last bidder, the next answer is a STAY only
      if a bid already stood, and the turn passes to the first eligible seat,
      or to the second when the bidder is the first. Only a bidder left alone
      before any bid stops the loop: as written by the IndexError of
      `eligible_to_bid[1]`, corrected by winning. */
  lemma BidStep(rule: Rule, ordering: seq<int>, s: State, response: string)
    requires Inv(ordering, s) && !PlayerPassed(response) && s.nextAction == Bid
    ensures match Step(rule, s, response)
      case Asking(t) =>
        && Inv(ordering, t) && t.eligible == s.eligible
        && t.currentBid == Some(s.minBid) && t.minBid == s.minBid + 1 && t.lastBidder == Some(s.active)
        && (t.nextAction == Stay <==> s.currentBid.Some?)
        && t.active == (if s.active == s.eligible[0] then s.eligible[1] else s.eligible[0])
      case Closed(t) =>
        && Finished(ordering, t) && rule == Corrected && s.eligible == [s.active] && s.currentBid.None?
        && t.currentBid == Some(s.minBid) && t.lastBidder == Some(s.active)
      case Crashed(e) => e == IndexError && rule == AsWritten && s.currentBid.None?
    ensures Step(rule, s, response).Asking? <==> s.eligible != [s.active]
    ensures Step(rule, s, response).Crashed? <==> rule == AsWritten && s.eligible == [s.active]
  {
  }

  /** An accepted STAY: the numbers stay, the stayer becomes the last bidder,
      the next answer is a BID again, and the turn passes as after a BID. A
      STAY always answers a standing bid, so a second seat is eligible and
      the loop neither raises nor ends. */
  lemma StayStep(rule: Rule, ordering: seq<int>, s: State, response: string)
    requires Inv(ordering, s) && !PlayerPassed(response) && s.nextAction != Bid
    ensures match Step(rule, s, response)
      case Asking(t) =>
        && Inv(ordering, t) && t.eligible == s.eligible
        && t.currentBid == s.currentBid && t.minBid == s.minBid && t.lastBidder == Some(s.active)
        && t.nextAction == Bid
        && t.active == (if s.active == s.eligible[0] then s.eligible[1] else s.eligible[0])
      case Closed(_) => false
      case Crashed(_) => false
  {
  }

  /** One step keeps the invariant; a bid, once made, stays; the loop is left
      cleanly; and the only exception is the as-written IndexError. */
  lemma StepKeepsInvariant(rule: Rule, ordering: seq<int>, s: State, response: string)
    requires Inv(ordering, s)
    ensures match Step(rule, s, response)
      case Asking(t) =>
        && Inv(ordering, t) && IsSubseq(t.eligible, s.eligible)
        && (s.currentBid.Some? ==> t.currentBid.Some?)
      case Closed(t) =>
        && Finished(ordering, t)
        && (s.currentBid.Some? ==> t.currentBid.Some?)
        && (rule == AsWritten ==> t.currentBid.None?)
      case Crashed(e) => e == IndexError && rule == AsWritten
  {
    if PlayerPassed(response) {
      PassStep(rule, ordering, s, response);
      SubseqRemoveFirst(s.eligible, s.active);
    } else if s.nextAction == Bid {
      BidStep(rule, ordering, s, response);
      SubseqRefl(s.eligible);
    } else {
      StayStep(rule, ordering, s, response);
      SubseqRefl(s.eligible);
    }
  }

  /** The invariant over any finite list of answers. */
  lemma {:induction false} RunKeepsInvariant(rule: Rule, ordering: seq<int>, s: State, responses: seq<string>)
    requires Inv(ordering, s)
    ensures match Run(rule, s, responses)
      case Asking(t) => Inv(ordering, t) && (s.currentBid.Some? ==> t.currentBid.Some?)
      case Closed(t) =>
        && Finished(ordering, t)
        && (s.currentBid.Some? ==> t.currentBid.Some?)
        && (rule == AsWritten ==> t.currentBid.None?)
      case Crashed(e) => e == IndexError && rule == AsWritten
    decreases |responses|
  {
    if responses != [] {
      StepKeepsInvariant(rule, ordering, s, responses[0]);
      match Step(rule, s, responses[0])
      case Asking(t) =>
        RunKeepsInvariant(rule, ordering, t, responses[1..]);
      case Closed(_) =>
      case Crashed(_) =>
    }
  }

  /** What each rule can end with, for any turn order without repeats. As
      written, nobody ever wins the auction: after any bid the loop can only
      stop on the IndexError. Corrected, nothing is raised, and the winner is
      a seat of the turn order holding a bid of at least 16. */
  lemma AuctionOutcomes(rule: Rule, ordering: seq<int>, responses: seq<string>)
    requires ValidOrdering(ordering) && |ordering| > 0
    ensures match Auction(rule, ordering, responses)
      case Won(b, bid) => rule == Corrected && b in ordering && bid >= MinBid
      case Raised(e) => rule == AsWritten && e == IndexError
      case Pending(t) => Inv(ordering, t)
      case NoBid => true
  {
    InitialInv(ordering);
    RunKeepsInvariant(rule, ordering, Initial(ordering), responses);
    match Run(rule, Initial(ordering), responses)
    case Closed(t) =>
      if t.currentBid.Some? {
        SubseqMembers(t.eligible, ordering, t.lastBidder.value);
      }
    case Asking(_) =>
    case Crashed(_) =>
  }

  lemma AuctionAsWrittenNeverWins(ordering: seq<int>, responses: seq<string>)
    requires ValidOrdering(ordering) && |ordering| > 0
    ensures !Auction(AsWritten, ordering, responses).Won?
    ensures Auction(AsWritten, ordering, responses).Raised? ==>
      Auction(AsWritten, ordering, responses).error == IndexError
  {
    AuctionOutcomes(AsWritten, ordering, responses);
  }

  lemma AuctionCorrectedNeverRaises(ordering: seq<int>, responses: seq<string>)
    requires ValidOrdering(ordering) && |ordering| > 0
    ensures !Auction(Corrected, ordering, responses).Raised?
    ensures Auction(Corrected, ordering, responses).Won? ==>
      && Auction(Corrected, ordering, responses).bidder in ordering
      && Auction(Corrected, ordering, responses).bid >= MinBid
  {
    AuctionOutcomes(Corrected, ordering, responses);
  }

  /** The first `n` answers exist and are all passes. */
  predicate AllPass(responses: seq<string>, n: nat) {
    n <= |responses| && forall i :: 0 <= i < n ==> PlayerPassed(responses[i])
  }

  /** Before any bid, the loop is left with no bid exactly when every seat
      still eligible passes in turn. */
  lemma {:induction false} RunBeforeAnyBid(rule: Rule, ordering: seq<int>, s: State, responses: seq<string>)
    requires Inv(ordering, s) && s.lastBidder.None?
    ensures (Run(rule, s, responses).Closed? && Run(rule, s, responses).state.currentBid.None?)
        <==> AllPass(responses, |s.eligible|)
    decreases |responses|, 1
  {
    if responses == [] {
    } else if PlayerPassed(responses[0]) {
      FirstPassBeforeAnyBid(rule, ordering, s, responses);
    } else {
      FirstAcceptBeforeAnyBid(rule, ordering, s, responses);
    }
  }

  lemma {:induction false} FirstPassBeforeAnyBid(rule: Rule, ordering: seq<int>, s: State, responses: seq<string>)
    requires Inv(ordering, s) && s.lastBidder.None?
    requires |responses| > 0 && PlayerPassed(responses[0])
    ensures (Run(rule, s, responses).Closed? && Run(rule, s, responses).state.currentBid.None?)
        <==> AllPass(responses, |s.eligible|)
    decreases |responses|, 0
  {
    PassStep(rule, ordering, s, responses[0]);
    PassLeavesEligible(ordering, s);
    AllPassShift(responses, |s.eligible|);
    match Step(rule, s, responses[0])
    case Asking(t) =>
      assert Run(rule, s, responses) == Run(rule, t, responses[1..]);
      RunBeforeAnyBid(rule, ordering, t, responses[1..]);
    case Closed(t) =>
      assert Run(rule, s, responses) == Closed(t);
    case Crashed(_) =>
  }

  lemma FirstAcceptBeforeAnyBid(rule: Rule, ordering: seq<int>, s: State, responses: seq<string>)
    requires Inv(ordering, s) && s.lastBidder.None?
    requires |responses| > 0 && !PlayerPassed(responses[0])
    ensures !(Run(rule, s, responses).Closed? && Run(rule, s, responses).state.currentBid.None?)
    ensures !AllPass(responses, |s.eligible|)
  {
    BidStep(rule, ordering, s, responses[0]);
    match Step(rule, s, responses[0])
    case Asking(t) =>
      assert Run(rule, s, responses) == Run(rule, t, responses[1..]);
      RunKeepsInvariant(rule, ordering, t, responses[1..]);
    case Closed(t) =>
      assert Run(rule, s, responses) == Closed(t);
    case Crashed(_) =>
  }

  lemma AllPassShift(responses: seq<string>, n: nat)
    requires |responses| > 0 && n > 0 && PlayerPassed(responses[0])
    ensures AllPass(responses, n) <==> AllPass(responses[1..], n - 1)
  {
    if AllPass(responses[1..], n - 1) {
      forall i | 0 <= i < n ensures PlayerPassed(responses[i]) {
        if i > 0 {
          assert responses[i] == responses[1..][i - 1];
        }
      }
    }
  }

  /** `bidding` returns False exactly when the first answer of every seat is a
      pass, for either rule. */
  lemma AuctionNoBidIffAllPass(rule: Rule, ordering: seq<int>, responses: seq<string>)
    requires ValidOrdering(ordering) && |ordering| > 0
    ensures Auction(rule, ordering, responses) == NoBid <==> AllPass(responses, |ordering|)
  {
    InitialInv(ordering);
    RunKeepsInvariant(rule, ordering, Initial(ordering), responses);
    RunBeforeAnyBid(rule, ordering, Initial(ordering), responses);
  }

  /** The two rotation rules differ only where the code as written raises. */
  lemma NextBidderAgrees(eligible: seq<int>, lastBidder: Option<int>)
    ensures || NextBidder(AsWritten, eligible, lastBidder) == Err(IndexError)
            || NextBidder(Corrected, eligible, lastBidder) == NextBidder(AsWritten, eligible, lastBidder)
  {
  }

  /** From any state the loop can reach, the corrected step does what the
      written one does, unless the written one raises. */
  lemma StepAgrees(ordering: seq<int>, s: State, response: string)
    requires Inv(ordering, s)
    ensures Step(AsWritten, s, response).Crashed? || Step(Corrected, s, response) == Step(AsWritten, s, response)
  {
    if PlayerPassed(response) {
      PassAgrees(s, response);
    } else {
      assert -1 !in s.eligible;
      AcceptAgrees(s, response);
    }
  }

  lemma PassAgrees(s: State, response: string)
    requires PlayerPassed(response)
    ensures Step(AsWritten, s, response).Crashed? || Step(Corrected, s, response) == Step(AsWritten, s, response)
  {
    if s.active in s.eligible {
      NextBidderAgrees(RemoveFirst(s.eligible, s.active), s.lastBidder);
    }
  }

  lemma AcceptAgrees(s: State, response: string)
    requires !PlayerPassed(response) && s.active in s.eligible && -1 !in s.eligible
    ensures Step(AsWritten, s, response).Crashed? || Step(Corrected, s, response) == Step(AsWritten, s, response)
  {
    NextBidderAgrees(s.eligible, Some(s.active));
  }

  lemma {:induction false} RunAgrees(ordering: seq<int>, s: State, responses: seq<string>)
    requires Inv(ordering, s)
    ensures Run(AsWritten, s, responses).Crashed? || Run(Corrected, s, responses) == Run(AsWritten, s, responses)
    decreases |responses|
  {
    if responses != [] {
      StepAgrees(ordering, s, responses[0]);
      StepKeepsInvariant(AsWritten, ordering, s, responses[0]);
      match Step(AsWritten, s, responses[0])
      case Asking(t) =>
        RunAgrees(ordering, t, responses[1..]);
      case Closed(_) =>
      case Crashed(_) =>
    }
  }

  /** The corrected auction ends as the written one does whenever the written
      one does not raise. */
  lemma AuctionAgrees(ordering: seq<int>, responses: seq<string>)
    requires ValidOrdering(ordering) && |ordering| > 0
    ensures Auction(AsWritten, ordering, responses).Raised?
         || Auction(Corrected, ordering, responses) == Auction(AsWritten, ordering, responses)
  {
    InitialInv(ordering);
    RunAgrees(ordering, Initial(ordering), responses);
  }

  /** Running two lists of answers one after the other. */
  lemma {:induction false} RunAppend(rule: Rule, s: State, a: seq<string>, b: seq<string>)
    ensures Run(rule, s, a + b) ==
      match Run(rule, s, a)
      case Asking(t) => Run(rule, t, b)
      case other => other
    decreases |a|
  {
    if a == [] {
      assert a + b == b;
    } else {
      assert (a + b)[0] == a[0] && (a + b)[1..] == a[1..] + b;
      match Step(rule, s, a[0])
      case Asking(t) =>
        RunAppend(rule, t, a[1..], b);
      case Closed(_) =>
      case Crashed(_) =>
    }
  }

  /** Answers after a run that is still asking continue from where it stopped. */
  lemma RunThen(rule: Rule, s: State, a: seq<string>, b: seq<string>, t: State)
    requires Run(rule, s, a) == Asking(t)
    ensures Run(rule, s, a + b) == Run(rule, t, b)
  {
    RunAppend(rule, s, a, b);
  }

  /** `n` accepting answers. */
  function Accepts(n: nat): (r: seq<string>)
    ensures |r| == n && forall i :: 0 <= i < n ==> r[i] == "y"
  {
    seq(n, _ => "y")
  }

  lemma AcceptsSplit(m: nat, k: nat)
    ensures Accepts(m + k) == Accepts(m) + Accepts(k)
  {
  }

  /** While two seats are left, a BID followed by a STAY raises the standing
      bid by exactly one and hands the next answer back to a BID. */
  lemma BidThenStay(rule: Rule, ordering: seq<int>, s: State) returns (t: State)
    requires Inv(ordering, s) && |s.eligible| >= 2 && s.currentBid.Some? && s.nextAction == Bid
    ensures Run(rule, s, Accepts(2)) == Asking(t)
    ensures Inv(ordering, t) && t.eligible == s.eligible
    ensures t.currentBid.Some? && t.currentBid.value == s.currentBid.value + 1 && t.nextAction == Bid
  {
    var rs := Accepts(2);
    assert rs == ["y", "y"];
    BidStep(rule, ordering, s, "y");
    var t1 := Step(rule, s, "y").state;
    StayStep(rule, ordering, t1, "y");
    assert rs[1..] == ["y"];
    t := Step(rule, t1, "y").state;
  }

  /** There is no bid ceiling: with at least two seats, `2 * n + 1`
      acceptances in a row leave the auction open with a standing bid of `16 + n`. */
  lemma NoBidCeiling(rule: Rule, ordering: seq<int>, n: nat)
    requires ValidOrdering(ordering) && |ordering| >= 2
    ensures var r := Run(rule, Initial(ordering), Accepts(2 * n + 1));
      && r.Asking? && Inv(ordering, r.state) && r.state.eligible == ordering
      && r.state.currentBid == Some(MinBid + n) && r.state.nextAction == Bid
  {
    var s0 := Initial(ordering);
    InitialInv(ordering);
    BidStep(rule, ordering, s0, "y");
    assert NextBidder(rule, ordering, Some(ordering[0])) == Ok(ordering[1]);
    var s1 := Step(rule, s0, "y").state;
    RaisesBy(rule, ordering, s1, n);
    AcceptsTail(2 * n);
    RunAfterFirst(rule, s0, Accepts(2 * n + 1), s1);
  }

  /** `n` rounds of BID and STAY, each raising the standing bid by one. */
  lemma {:induction false} RaisesBy(rule: Rule, ordering: seq<int>, s: State, n: nat)
    requires Inv(ordering, s) && |s.eligible| >= 2 && s.currentBid.Some? && s.nextAction == Bid
    ensures var r := Run(rule, s, Accepts(2 * n));
      && r.Asking? && Inv(ordering, r.state) && r.state.eligible == s.eligible
      && r.state.currentBid.Some? && r.state.currentBid.value == s.currentBid.value + n
      && r.state.nextAction == Bid
    decreases n
  {
    if n == 0 {
      assert Accepts(0) == [];
    } else {
      var t := BidThenStay(rule, ordering, s);
      var k := 2 * (n - 1);
      RaisesBy(rule, ordering, t, n - 1);
      AcceptsSplit(2, k);
      assert Accepts(2) + Accepts(k) == Accepts(2 * n) by { assert 2 + k == 2 * n; }
      RunThen(rule, s, Accepts(2), Accepts(k), t);
    }
  }

  lemma AcceptsTail(n: nat)
    ensures Accepts(n + 1)[0] == "y" && Accepts(n + 1)[1..] == Accepts(n)
  {
  }

  /** A step that leaves the loop or raises ends the run. */
  lemma RunStops(rule: Rule, s: State, responses: seq<string>)
    requires |responses| > 0 && !Step(rule, s, responses[0]).Asking?
    ensures Run(rule, s, responses) == Step(rule, s, responses[0])
  {
  }

  /** Passes that leave at least one seat besides the last bidder keep the
      auction open; before any bid the seats drop out from the front. */
  lemma {:induction false} PassesKeepAsking(rule: Rule, ordering: seq<int>, s: State, responses: seq<string>)
    requires Inv(ordering, s)
    requires forall i :: 0 <= i < |responses| ==> PlayerPassed(responses[i])
    requires |responses| + (if s.lastBidder.Some? then 1 else 0) < |s.eligible|
    ensures var r := Run(rule, s, responses);
      && r.Asking? && Inv(ordering, r.state)
      && |r.state.eligible| == |s.eligible| - |responses|
      && r.state.lastBidder == s.lastBidder && r.state.currentBid == s.currentBid
      && (s.lastBidder.None? ==> r.state.eligible == s.eligible[|responses|..])
    decreases |responses|
  {
    if responses != [] {
      var t := FirstPassKeepsAsking(rule, ordering, s, responses);
      PassesKeepAsking(rule, ordering, t, responses[1..]);
      if s.lastBidder.None? {
        assert s.eligible[1..][|responses| - 1..] == s.eligible[|responses|..];
      }
    }
  }

  /** The first of several passes, and the answers still to come. */
  lemma FirstPassKeepsAsking(rule: Rule, ordering: seq<int>, s: State, responses: seq<string>) returns (t: State)
    requires Inv(ordering, s) && |responses| > 0
    requires forall i :: 0 <= i < |responses| ==> PlayerPassed(responses[i])
    requires 1 + (if s.lastBidder.Some? then 1 else 0) < |s.eligible|
    ensures Run(rule, s, responses) == Run(rule, t, responses[1..])
    ensures Inv(ordering, t) && |t.eligible| == |s.eligible| - 1
    ensures t.lastBidder == s.lastBidder && t.currentBid == s.currentBid
    ensures s.lastBidder.None? ==> t.eligible == s.eligible[1..]
    ensures forall i :: 0 <= i < |responses[1..]| ==> PlayerPassed(responses[1..][i])
  {
    assert PlayerPassed(responses[0]);
    PassKeepsAsking(rule, ordering, s, responses[0]);
    t := Step(rule, s, responses[0]).state;
  }

  lemma PassKeepsAsking(rule: Rule, ordering: seq<int>, s: State, response: string)
    requires Inv(ordering, s) && PlayerPassed(response)
    requires 1 + (if s.lastBidder.Some? then 1 else 0) < |s.eligible|
    ensures var r := Step(rule, s, response);
      && r.Asking? && Inv(ordering, r.state)
      && |r.state.eligible| == |s.eligible| - 1
      && r.state.lastBidder == s.lastBidder && r.state.currentBid == s.currentBid
      && (s.lastBidder.None? ==> r.state.eligible == s.eligible[1..])
  {
    PassStep(rule, ordering, s, response);
    PassLeavesEligible(ordering, s);
  }

  /** The last rival of the standing bidder passes: as written, the rotation
      indexes past the one-seat list; corrected, the auction is over. */
  lemma LastRivalPasses(rule: Rule, ordering: seq<int>, s: State, response: string)
    requires Inv(ordering, s) && s.lastBidder.Some? && |s.eligible| == 2 && PlayerPassed(response)
    ensures Step(rule, s, response) ==
      if rule == AsWritten then Crashed(IndexError)
      else Closed(s.(eligible := [s.lastBidder.value]))
  {
    PassStep(rule, ordering, s, response);
    PassLeavesEligible(ordering, s);
    var e := RemoveFirst(s.eligible, s.active);
    assert e == [s.lastBidder.value] by {
      assert s.lastBidder.value in e;
    }
  }

  /** The only seat left accepts the opening bid: as written, the rotation
      indexes past the one-seat list; corrected, that seat holds the bid. */
  lemma AloneAcceptsOpening(rule: Rule, ordering: seq<int>, s: State, response: string)
    requires Inv(ordering, s) && s.lastBidder.None? && |s.eligible| == 1 && !PlayerPassed(response)
    ensures Step(rule, s, response) ==
      if rule == AsWritten then Crashed(IndexError)
      else Closed(State(s.eligible, s.active, Some(s.active), Some(MinBid), MinBid + 1, Bid))
  {
    assert s.eligible == [s.active];
  }

  /** The three seats before the dealer pass and the dealer accepts the
      opening bid. As written, `eligible_to_bid[1]` of the one-seat list
      raises; corrected, the dealer wins with 16. */
  lemma DealerTakesOpening(rule: Rule, ordering: seq<int>, responses: seq<string>)
    requires ValidOrdering(ordering) && |ordering| == 4
    requires |responses| == 4 && AllPass(responses, 3) && !PlayerPassed(responses[3])
    ensures Auction(rule, ordering, responses) ==
      if rule == AsWritten then Raised(IndexError) else Won(ordering[3], MinBid)
  {
    var passes := responses[..3];
    assert forall i :: 0 <= i < |passes| ==> PlayerPassed(passes[i]);
    var t := DealerAlone(rule, ordering, passes);
    AloneAcceptsOpening(rule, ordering, t, responses[3]);
    AuctionEndsWith(rule, ordering, responses, t);
  }

  /** Three passes before any bid leave the dealer alone. */
  lemma DealerAlone(rule: Rule, ordering: seq<int>, passes: seq<string>) returns (t: State)
    requires ValidOrdering(ordering) && |ordering| == 4
    requires |passes| == 3 && forall i :: 0 <= i < |passes| ==> PlayerPassed(passes[i])
    ensures Run(rule, Initial(ordering), passes) == Asking(t)
    ensures Inv(ordering, t) && t.lastBidder.None? && |t.eligible| == 1 && t.active == ordering[3]
  {
    InitialInv(ordering);
    PassesKeepAsking(rule, ordering, Initial(ordering), passes);
    t := Run(rule, Initial(ordering), passes).state;
    assert t.eligible == [ordering[3]];
  }

  /** An auction whose last answer stops the loop ends with that answer's step. */
  lemma AuctionEndsWith(rule: Rule, ordering: seq<int>, responses: seq<string>, t: State)
    requires |ordering| > 0 && |responses| > 0
    requires Run(rule, Initial(ordering), responses[..|responses| - 1]) == Asking(t)
    requires !Step(rule, t, responses[|responses| - 1]).Asking?
    ensures Auction(rule, ordering, responses) ==
      match Step(rule, t, responses[|responses| - 1])
      case Asking(s) => Pending(s)
      case Closed(s) => Conclude(s)
      case Crashed(e) => Raised(e)
  {
    var n := |responses| - 1;
    SplitLast(responses);
    RunEndsWith(rule, Initial(ordering), responses[..n], responses[n], t);
    AuctionAfterRun(rule, ordering, responses, Step(rule, t, responses[n]));
  }

  /** `bidding` ends the way its loop ends. */
  lemma AuctionAfterRun(rule: Rule, ordering: seq<int>, responses: seq<string>, r: StepResult)
    requires |ordering| > 0 && Run(rule, Initial(ordering), responses) == r
    ensures Auction(rule, ordering, responses) ==
      match r
      case Asking(s) => Pending(s)
      case Closed(s) => Conclude(s)
      case Crashed(e) => Raised(e)
  {
  }

  /** A run whose last answer stops the loop ends with that answer's step. */
  lemma RunEndsWith(rule: Rule, s0: State, a: seq<string>, x: string, t: State)
    requires Run(rule, s0, a) == Asking(t) && !Step(rule, t, x).Asking?
    ensures Run(rule, s0, a + [x]) == Step(rule, t, x)
  {
    RunAppend(rule, s0, a, [x]);
    RunStops(rule, t, [x]);
  }

  /** The first seat opens with 16 and the other three pass. As written, the
      last pass raises; corrected, the opener wins with 16. */
  lemma OpeningBidStands(rule: Rule, ordering: seq<int>, responses: seq<string>)
    requires ValidOrdering(ordering) && |ordering| == 4
    requires |responses| == 4 && !PlayerPassed(responses[0])
    requires forall i :: 1 <= i < 4 ==> PlayerPassed(responses[i])
    ensures Auction(rule, ordering, responses) ==
      if rule == AsWritten then Raised(IndexError) else Won(ordering[0], MinBid)
  {
    var s1 := Opening(rule, ordering, responses[0]);
    RunAfterFirst(rule, Initial(ordering), responses, s1);
    RivalsPass(rule, ordering, s1, responses[1..]);
    AuctionAfterRun(rule, ordering, responses, Run(rule, s1, responses[1..]));
  }

  /** An answer that keeps the loop going hands the rest of the answers to the next state. */
  lemma RunAfterFirst(rule: Rule, s: State, responses: seq<string>, t: State)
    requires |responses| > 0 && Step(rule, s, responses[0]) == Asking(t)
    ensures Run(rule, s, responses) == Run(rule, t, responses[1..])
  {
  }

  /** The first seat accepts the opening bid of 16. */
  lemma Opening(rule: Rule, ordering: seq<int>, response: string) returns (s1: State)
    requires ValidOrdering(ordering) && |ordering| == 4 && !PlayerPassed(response)
    ensures Step(rule, Initial(ordering), response) == Asking(s1)
    ensures Inv(ordering, s1) && |s1.eligible| == 4
    ensures s1.lastBidder == Some(ordering[0]) && s1.currentBid == Some(MinBid)
  {
    var s0 := Initial(ordering);
    InitialInv(ordering);
    BidStep(rule, ordering, s0, response);
    assert NextBidder(rule, ordering, Some(ordering[0])) == Ok(ordering[1]);
    s1 := Step(rule, s0, response).state;
  }

  /** Three passes against a standing bid with four seats eligible. */
  lemma RivalsPass(rule: Rule, ordering: seq<int>, s1: State, passes: seq<string>)
    requires Inv(ordering, s1) && |s1.eligible| == 4 && s1.lastBidder.Some?
    requires |passes| == 3 && forall i :: 0 <= i < 3 ==> PlayerPassed(passes[i])
    ensures var r := Run(rule, s1, passes);
      if rule == AsWritten then r == Crashed(IndexError)
      else r.Closed? && r.state.lastBidder == s1.lastBidder && r.state.currentBid == s1.currentBid
  {
    var first := passes[..2];
    assert forall i :: 0 <= i < |first| ==> PlayerPassed(first[i]);
    PassesKeepAsking(rule, ordering, s1, first);
    var s3 := Run(rule, s1, first).state;
    LastRivalPasses(rule, ordering, s3, passes[2]);
    SplitLast(passes);
    RunEndsWith(rule, s1, first, passes[2], s3);
  }
}
