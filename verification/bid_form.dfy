/** The bid form's rule engine: which phase a sealed-bid auction is in, the
    minimum acceptable bid, whether a submission may run and where it goes,
    and the button and status texts that mirror those decisions.

    Amounts are integer base units (wei); time `nowMs` is milliseconds since
    the epoch and every chain bound is in seconds, compared after scaling by
    1000. */
module BidForm {
  import opened Common
  import opened Protocols

  /** One token in base units (18 decimals). */
  const WeiPerToken: nat := 1_000_000_000_000_000_000

  /** The bid increment used when the auction sets none: 0.1 token. */
  const DefaultMinDelta: nat := WeiPerToken / 10

  /** The auction fields the bid form reads; absent chain values are `None`. */
  datatype Auction = Auction(
    protocol: WellFormedProtocol,
    reservedPrice: Option<nat>,
    highestBid: Option<nat>,
    minBidDelta: Option<nat>,
    startingBid: Option<nat>,
    deadline: Option<nat>,
    isClaimed: bool,
    bidCommitEnd: Option<nat>,
    bidRevealEnd: Option<nat>,
    auctionType: Option<nat>,
    biddingToken: string,
    biddingTokenName: Option<string>)

  // ---------------------------------------------------------------------------
  // Sealed-bid phase

  datatype Phase = Commit | Reveal | Ended

  /** Position of a phase in the auction's life: commit, then reveal, then ended. */
  function Rank(p: Phase): nat
  {
    match p
    case Commit => 0
    case Reveal => 1
    case Ended => 2
  }

  /** The phase of a Vickrey auction at `nowMs`; other protocols have none.
      Missing bounds count as 0. */
  function VickreyPhase(a: Auction, nowMs: int): (r: Option<Phase>)
    ensures r.None? <==> !IsVickrey(a.protocol)
    ensures r == Some(Commit) <==>
              IsVickrey(a.protocol) && nowMs < OrDefault(a.bidCommitEnd, 0) * 1000
    ensures r == Some(Reveal) <==>
              IsVickrey(a.protocol) && OrDefault(a.bidCommitEnd, 0) * 1000 <= nowMs
              && nowMs < OrDefault(a.bidRevealEnd, 0) * 1000
    ensures r == Some(Ended) <==>
              IsVickrey(a.protocol) && OrDefault(a.bidCommitEnd, 0) * 1000 <= nowMs
              && OrDefault(a.bidRevealEnd, 0) * 1000 <= nowMs
  {
    if !IsVickrey(a.protocol) then None
    else
      var commitEnd := OrDefault(a.bidCommitEnd, 0);
      var revealEnd := OrDefault(a.bidRevealEnd, 0);
      if nowMs < commitEnd * 1000 then Some(Commit)
      else if nowMs < revealEnd * 1000 then Some(Reveal)
      else Some(Ended)
  }

  /** Reference phase of a sealed-bid schedule whose commit window closes no
      later than its reveal window, read from the end: at or past the reveal
      bound the auction is over, else at or past the commit bound it reveals,
      else it commits. */
  ghost function SchedulePhase(commitEndMs: int, revealEndMs: int, nowMs: int): Phase
    requires commitEndMs <= revealEndMs
  {
    if revealEndMs <= nowMs then Ended
    else if commitEndMs <= nowMs then Reveal
    else Commit
  }

  /** With ordered bounds the resolver agrees with the reference schedule:
      the auction is over exactly from the reveal bound on, and the instant
      commitEnd itself already belongs to the reveal phase. With the bounds
      in the wrong order there is no reveal phase at all. */
  lemma PhaseMatchesSchedule(a: Auction, nowMs: int)
    requires IsVickrey(a.protocol)
    ensures OrDefault(a.bidCommitEnd, 0) <= OrDefault(a.bidRevealEnd, 0) ==>
              && VickreyPhase(a, nowMs) ==
                   Some(SchedulePhase(OrDefault(a.bidCommitEnd, 0) * 1000,
                                      OrDefault(a.bidRevealEnd, 0) * 1000, nowMs))
              && (VickreyPhase(a, nowMs) == Some(Ended) <==> nowMs >= OrDefault(a.bidRevealEnd, 0) * 1000)
    ensures nowMs == OrDefault(a.bidCommitEnd, 0) * 1000 ==> VickreyPhase(a, nowMs) != Some(Commit)
    ensures OrDefault(a.bidCommitEnd, 0) > OrDefault(a.bidRevealEnd, 0) ==>
              VickreyPhase(a, nowMs) != Some(Reveal)
  {
  }

  /** No phase transition is ever reversed as time advances. */
  lemma PhaseMonotone(a: Auction, now1: int, now2: int)
    requires IsVickrey(a.protocol)
    requires now1 <= now2
    ensures Rank(VickreyPhase(a, now1).value) <= Rank(VickreyPhase(a, now2).value)
  {
  }

  /** An auction with neither bound set is over at every non-negative instant. */
  lemma MissingBoundsMeanEnded(a: Auction, nowMs: int)
    requires IsVickrey(a.protocol)
    requires a.bidCommitEnd.None? && a.bidRevealEnd.None?
    requires nowMs >= 0
    ensures VickreyPhase(a, nowMs) == Some(Ended)
  {
  }

  // ---------------------------------------------------------------------------
  // Minimum and valid bids

  /** The increment a new bid must add to the highest bid. */
  function MinDelta(a: Auction): (d: nat)
    ensures d > 0
    ensures a.minBidDelta.Some? && a.minBidDelta.value != 0 ==> d == a.minBidDelta.value
    ensures a.minBidDelta.None? || a.minBidDelta.value == 0 ==> d == DefaultMinDelta
  {
    OrDefault(a.minBidDelta, DefaultMinDelta)
  }

  /** The smallest amount the form accepts: the reserve for reverse Dutch
      auctions, otherwise the highest bid plus the increment once a bid
      exists, otherwise the starting bid (0 when unset). */
  function MinBidAmount(a: Auction): (m: nat)
    ensures IsReverseDutch(a.protocol) ==> m == OrDefault(a.reservedPrice, 0)
    ensures !IsReverseDutch(a.protocol) && OrDefault(a.highestBid, 0) != 0 ==>
              m > a.highestBid.value && m - a.highestBid.value == MinDelta(a)
    ensures !IsReverseDutch(a.protocol) && OrDefault(a.highestBid, 0) == 0 ==>
              m == OrDefault(a.startingBid, 0)
  {
    if IsReverseDutch(a.protocol) then OrDefault(a.reservedPrice, 0)
    else
      var current := OrDefault(a.highestBid, 0);
      if current != 0 then current + MinDelta(a)
      else OrDefault(a.startingBid, 0)
  }

  /** Whether the entered amount is acceptable; `None` is an amount that does
      not parse as a number. A reverse Dutch purchase needs no amount. */
  predicate IsValidBid(a: Auction, bid: Option<int>)
  {
    IsReverseDutch(a.protocol) || (bid.Some? && bid.value >= MinBidAmount(a))
  }

  /** The minimum is the exact threshold of validity: it is accepted, one
      base unit less is not, and validity is upward closed. */
  lemma MinBidIsThreshold(a: Auction, x: int, y: int)
    requires !IsReverseDutch(a.protocol)
    ensures IsValidBid(a, Some(MinBidAmount(a)))
    ensures !IsValidBid(a, Some(MinBidAmount(a) - 1))
    ensures IsValidBid(a, Some(x)) && x <= y ==> IsValidBid(a, Some(y))
    ensures !IsValidBid(a, None)
  {
  }

  /** Once a bid exists, every valid bid beats it by at least the increment. */
  lemma ValidBidOutbidsHighest(a: Auction, x: int)
    requires !IsReverseDutch(a.protocol)
    requires OrDefault(a.highestBid, 0) != 0
    requires IsValidBid(a, Some(x))
    ensures x >= a.highestBid.value + MinDelta(a)
    ensures x > a.highestBid.value
  {
  }

  // ---------------------------------------------------------------------------
  // Deadline, submission guard and routing

  /** `now >= deadline * 1000`; with no deadline the comparison is against
      NaN and is false. */
  predicate PastDeadline(a: Auction, nowMs: int)
  {
    a.deadline.Some? && nowMs >= a.deadline.value * 1000
  }

  /** `now < deadline * 1000`; also false with no deadline (NaN). */
  predicate BeforeDeadline(a: Auction, nowMs: int)
  {
    a.deadline.Some? && nowMs < a.deadline.value * 1000
  }

  /** A reverse Dutch auction that is sold or past its deadline. */
  predicate SaleClosed(a: Auction, nowMs: int)
  {
    IsReverseDutch(a.protocol) && (a.isClaimed || PastDeadline(a, nowMs))
  }

  /** The wallet side of the form. */
  datatype Session = Session(isConnected: bool, address: Option<string>, isSubmitting: bool)

  /** Every condition under which the submit handler proceeds. */
  predicate MaySubmit(a: Auction, s: Session, bid: Option<int>, nowMs: int)
  {
    IsValidBid(a, bid) && s.isConnected && TruthyText(s.address) && !s.isSubmitting
    && !SaleClosed(a, nowMs)
  }

  /** The service entry points the form can invoke. */
  datatype ServiceCall =
    | WithdrawItem(protocol: Protocol, auctionId: nat)
    | PlaceBid(protocol: Protocol, auctionId: nat, amount: int, token: string, auctionType: nat)

  /** Observable effects of a submission, in order. `RecordBid` is the
      storage `append("Bids", protocol, id)` event. */
  datatype Effect = Call(call: ServiceCall) | RecordBid(protocol: Protocol, auctionId: nat)

  datatype SubmitOutcome = SubmitOutcome(effects: seq<Effect>, isSubmitting: bool)

  /** The submit handler. `serviceFails` says whether the service call
      throws; then the bid is not recorded and the form is released. */
  function HandleSubmit(a: Auction, s: Session, auctionId: nat, bid: Option<int>,
                        nowMs: int, serviceFails: bool): (o: SubmitOutcome)
    ensures !MaySubmit(a, s, bid, nowMs) ==> o.effects == [] && o.isSubmitting == s.isSubmitting
    ensures MaySubmit(a, s, bid, nowMs) ==>
              && 1 <= |o.effects| <= 2
              && o.effects[0].Call?
              && (forall k :: 1 <= k < |o.effects| ==> !o.effects[k].Call?)
              && (o.effects[0].call.WithdrawItem? <==> IsReverseDutch(a.protocol))
              && o.effects[0].call.auctionId == auctionId
              && o.effects[0].call.protocol == a.protocol
              && (o.effects[0].call.PlaceBid? ==>
                    && o.effects[0].call.amount == bid.value && o.effects[0].call.amount >= MinBidAmount(a)
                    && o.effects[0].call.token == a.biddingToken
                    && o.effects[0].call.auctionType == OrDefault(a.auctionType, 0))
              && (|o.effects| == 2 ==> o.effects[1] == RecordBid(a.protocol, auctionId))
              && (|o.effects| == 2 <==> !serviceFails)
              && o.isSubmitting == !serviceFails
  {
    if !(IsValidBid(a, bid) && s.isConnected && TruthyText(s.address) && !s.isSubmitting) then
      SubmitOutcome([], s.isSubmitting)
    else if IsReverseDutch(a.protocol) && (a.isClaimed || PastDeadline(a, nowMs)) then
      SubmitOutcome([], s.isSubmitting)
    else
      var call :=
        if IsReverseDutch(a.protocol) then WithdrawItem(a.protocol, auctionId)
        else PlaceBid(a.protocol, auctionId, bid.value, a.biddingToken, OrDefault(a.auctionType, 0));
      if serviceFails then SubmitOutcome([Call(call)], false)
      else SubmitOutcome([Call(call), RecordBid(a.protocol, auctionId)], true)
  }

  /** Whether the buy/bid button is disabled. */
  predicate ButtonDisabled(a: Auction, s: Session, bid: Option<int>, nowMs: int,
                           isPending: bool, isConfirming: bool)
  {
    !IsValidBid(a, bid) || s.isSubmitting || isPending || isConfirming
    || (IsReverseDutch(a.protocol) && (a.isClaimed || PastDeadline(a, nowMs)))
  }

  /** For a connected wallet with an address, the button is enabled exactly
      when the handler would proceed and no transaction is in flight. */
  lemma ButtonMirrorsGuard(a: Auction, s: Session, bid: Option<int>, nowMs: int,
                           isPending: bool, isConfirming: bool)
    requires s.isConnected && TruthyText(s.address)
    ensures ButtonDisabled(a, s, bid, nowMs, isPending, isConfirming) <==>
              (!MaySubmit(a, s, bid, nowMs) || isPending || isConfirming)
  {
  }

  // ---------------------------------------------------------------------------
  // Texts

  /** The button caption: JSX renders every `&&` fragment that holds, so
      the pending and confirming texts can appear together. */
  function ButtonLabel(a: Auction, isSubmitting: bool, nowMs: int,
                       isPending: bool, isConfirming: bool): (t: string)
    ensures !isPending && !isConfirming && isSubmitting ==> t == "Processing..."
    ensures !isPending && !isConfirming && !isSubmitting ==>
              t == (if !IsReverseDutch(a.protocol) then "Place Bid"
                    else if a.isClaimed then "Sold"
                    else if PastDeadline(a, nowMs) then "Auction Ended"
                    else "Buy Now")
    ensures isPending && !isConfirming ==> t == "Preparing Transaction..."
    ensures !isPending && isConfirming ==> t == "Confirming..."
    ensures isPending && isConfirming ==> t == "Preparing Transaction...Confirming..."
  {
    (if isPending then "Preparing Transaction..." else "")
    + (if isConfirming then "Confirming..." else "")
    + (if !isPending && !isConfirming && isSubmitting then "Processing..." else "")
    + (if !isPending && !isConfirming && !isSubmitting then
         (if IsReverseDutch(a.protocol) then
            (if a.isClaimed then "Sold"
             else if PastDeadline(a, nowMs) then "Auction Ended"
             else "Buy Now")
          else "Place Bid")
       else "")
  }

  /** When idle, a reverse Dutch button offers "Buy Now" exactly when the
      sale is still open. */
  lemma BuyNowIffOpen(a: Auction, nowMs: int)
    requires IsReverseDutch(a.protocol)
    ensures ButtonLabel(a, false, nowMs, false, false) == "Buy Now" <==> !SaleClosed(a, nowMs)
  {
  }

  /** The price line of a reverse Dutch auction: "Sold" wins over "Auction
      Ended", which wins over the live price in the bidding token (ETH when
      the token has no name). */
  function PriceStatus(a: Auction, bidAmount: string, nowMs: int): (t: string)
    ensures a.isClaimed ==> t == "Sold"
    ensures !a.isClaimed && PastDeadline(a, nowMs) ==> t == "Auction Ended"
    ensures !SaleClosed(a, nowMs) && IsReverseDutch(a.protocol) ==>
              t == bidAmount + " " + TextOr(a.biddingTokenName, "ETH")
  {
    if a.isClaimed then "Sold"
    else if PastDeadline(a, nowMs) then "Auction Ended"
    else bidAmount + " " + TextOr(a.biddingTokenName, "ETH")
  }

  /** Text a number field or `toFixed` can produce: digits, sign, point
      and exponent marks. */
  predicate NumberText(s: string)
  {
    forall k :: 0 <= k < |s| ==> s[k] in "0123456789.-+eE"
  }

  /** The price line and the idle button of a reverse Dutch auction tell the
      same story: both say "Sold", both say "Auction Ended", or the button
      offers "Buy Now" exactly while the line shows the live price. The
      amount must read as a number: an amount "Auction" in a token named
      "Ended" would print as "Auction Ended". */
  lemma {:induction false} PriceLineMatchesLabel(a: Auction, bidAmount: string, nowMs: int)
    requires IsReverseDutch(a.protocol)
    requires NumberText(bidAmount)
    ensures var t := PriceStatus(a, bidAmount, nowMs);
            var idle := ButtonLabel(a, false, nowMs, false, false);
            && (t == "Sold" <==> idle == "Sold")
            && (t == "Auction Ended" <==> idle == "Auction Ended")
            && (t == bidAmount + " " + TextOr(a.biddingTokenName, "ETH") <==> idle == "Buy Now")
  {
    var price := bidAmount + " " + TextOr(a.biddingTokenName, "ETH");
    assert price[0] != 'S' && price[0] != 'A' by {
      if |bidAmount| == 0 {
        assert price[0] == ' ';
      } else {
        assert price[0] == bidAmount[0];
      }
    }
    assert price != "Sold" && price != "Auction Ended";
    assert ButtonLabel(a, false, nowMs, false, false) ==
             (if a.isClaimed then "Sold" else if PastDeadline(a, nowMs) then "Auction Ended" else "Buy Now");
  }

  /** Whether the form starts polling the contract for the current price. */
  predicate StartsPricePolling(a: Auction, nowMs: int)
  {
    IsReverseDutch(a.protocol) && !a.isClaimed && BeforeDeadline(a, nowMs)
  }

  /** Polling runs only while a purchase could still go through; with a
      known deadline it runs exactly then. With no deadline it never starts,
      yet the sale is not closed either. */
  lemma PollingOnlyWhileOpen(a: Auction, nowMs: int)
    ensures StartsPricePolling(a, nowMs) ==> IsReverseDutch(a.protocol) && !SaleClosed(a, nowMs)
    ensures IsReverseDutch(a.protocol) && a.deadline.Some? ==>
              (StartsPricePolling(a, nowMs) <==> !SaleClosed(a, nowMs))
    ensures a.deadline.None? ==> !StartsPricePolling(a, nowMs)
  {
  }

  // ---------------------------------------------------------------------------
  // Pre-filled bid amount

  /** The amount the form pre-fills for a protocol that takes bids, as
      written: highest bid plus increment, even when there is no bid yet. */
  function PrefillAsWritten(a: Auction): (amount: nat)
    ensures amount >= MinDelta(a)
    ensures OrDefault(a.highestBid, 0) == 0 ==> amount == MinDelta(a)
    ensures OrDefault(a.highestBid, 0) != 0 && !IsReverseDutch(a.protocol) ==>
              amount == MinBidAmount(a)
  {
    OrDefault(a.highestBid, 0) + MinDelta(a)
  }

  /** An English auction with no bids and a starting bid of one token: the
      pre-filled 0.1 token is below the 1-token minimum, so the form opens
      with an invalid bid. */
  lemma PrefillCanBeBelowMinimum()
    ensures var a := Auction(OtherProtocol("English"), None, None, None, Some(WeiPerToken),
                             None, false, None, None, None, "", None);
            !IsValidBid(a, Some(PrefillAsWritten(a)))
  {
  }

  /** The pre-filled amount the form evidently means: the minimum bid
      itself, which is always acceptable. */
  function Prefill(a: Auction): (amount: nat)
    ensures IsValidBid(a, Some(amount))
    ensures !IsReverseDutch(a.protocol) ==> !IsValidBid(a, Some(amount - 1))
    ensures !IsReverseDutch(a.protocol) && OrDefault(a.highestBid, 0) != 0 ==>
              amount == PrefillAsWritten(a)
  {
    MinBidAmount(a)
  }
}
