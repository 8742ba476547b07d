# Auction front-end rules, modelled in Dafny

This project models the decision logic of an on-chain auction marketplace's web front end. It covers three parts:

- **Bid form** (`BidForm`, with `Protocols` and `Common`). It classifies auction protocols: Linear, Exponential and Logarithmic auctions are reverse Dutch, and Vickrey auctions are sealed-bid. It resolves the commit/reveal/ended phase of a Vickrey auction from the wall clock. It computes the minimum acceptable bid and decides whether a bid is valid. It models the submit handler: its guard, and its routing to `withdrawItem` (a purchase) or `placeBid`. It also models what mirrors that guard: the button's disabled state, the button label, the price-status line, and the condition for starting price polling.
- **Linear Dutch auction service** (`LinearDutchService`). It maps the contract's raw 16-field auction tuple to a keyed record. It models the "last N auctions" listing (id window, filter, newest first), the approve-then-create call pair of `createAuction`, and the entry points with a fixed outcome: `placeBid` always fails, `getAuction` fails on unmappable data, and `getBidHistory` is always empty.
- **Auction card** (`AuctionCard`). It models the status badge, the watchlist heart toggle and the initial watched flag, the abbreviated creator address (with JavaScript `substring` clamping), and the start/end time caption.

Amounts are integer base units (wei). Time is integer milliseconds, compared against chain bounds in seconds scaled by 1000. The JavaScript `x || d` defaulting is modelled exactly: `undefined` and `0n` are both falsy. Contract reads, storage calls and the wallet are parameters or abstract events.

A few facts about the code shape the model:
- The mapper accepts any array of at least 16 elements, not exactly 16, and ignores the rest.
- The token-name resolver is awaited without a fallback, so the model takes it as a total function.
- No price-decay curve is computed locally: the current price always comes from the contract.
- A protocol tag is held as a well-formed `Protocol`: the four tags the bid form compares against always read as their own variants.

## Model

| member | source | states |
|---|---|---|
| Protocols.Parse | components/auction/bid-form.tsx:56-57 | Reading a protocol tag loses nothing: the tag is recovered from the result, and the known tags become their own variants |
| Protocols.ParseTag | components/auction/bid-form.tsx:56-57 | Tagging, then parsing, returns the protocol unchanged |
| Protocols.ClassifyTag | components/auction/bid-form.tsx:56-57 | A tag is reverse Dutch iff it is "Linear", "Exponential" or "Logarithmic", and sealed-bid iff it is "Vickrey"; no tag is both |
| Common.OrDefault | components/auction/bid-form.tsx:71-72 | A set, non-zero bigint is kept; an unset or zero one is replaced by the default |
| Common.TextOr | components/auction/bid-form.tsx:289 | An unset or empty token name is shown as the fallback ("ETH") |
| BidForm.VickreyPhase | components/auction/bid-form.tsx:67-81 | No phase for non-Vickrey auctions. Commit iff now < commitEnd·1000. Reveal iff commitEnd·1000 ≤ now < revealEnd·1000. Ended iff now is at or past both bounds |
| BidForm.PhaseMatchesSchedule | components/auction/bid-form.tsx:70-80 | When the commit bound is no later than the reveal bound, the phase is the one read backwards from the end: Ended from revealEnd·1000 on, else Reveal from commitEnd·1000 on, else Commit. Ended then holds iff now ≥ revealEnd·1000. The instant commitEnd·1000 is never Commit. With the bounds in the wrong order, there is no Reveal phase at all |
| BidForm.PhaseMonotone | components/auction/bid-form.tsx:74-80 | Later instants never have an earlier phase (commit < reveal < ended) |
| BidForm.MissingBoundsMeanEnded | components/auction/bid-form.tsx:70-80 | With both bounds unset (treated as 0), every non-negative instant is Ended |
| BidForm.MinDelta | components/auction/bid-form.tsx:61 | The bid increment is the auction's own when set and non-zero, and 0.1 token (10^17 wei) when unset or zero; so it is always positive |
| BidForm.MinBidAmount | components/auction/bid-form.tsx:59-62 | The minimum depends on the case. Reverse Dutch: the reserve. Otherwise, with a bid: exactly one increment above the highest bid. Otherwise: the starting bid, or 0 if unset |
| BidForm.MinBidIsThreshold | components/auction/bid-form.tsx:64 | For bid-taking protocols, the minimum is valid, one wei less is not, validity is upward closed, and an unparsable amount is invalid |
| BidForm.ValidBidOutbidsHighest | components/auction/bid-form.tsx:60-64 | Once a bid exists, every valid bid exceeds it by at least the increment |
| BidForm.HandleSubmit | components/auction/bid-form.tsx:142-175 | No effect and no change to the submitting flag when the bid is invalid, the wallet is disconnected, there is no address, a submission is running, or a reverse Dutch sale is claimed or past its deadline. Otherwise there is exactly one service call: `withdrawItem` iff reverse Dutch, else `placeBid` with the entered amount (at least the minimum). The `placeBid` call also carries the auction's bidding token and its auction type, defaulting to 0. The bid is recorded, under the same protocol and auction id, exactly when the call succeeds |
| BidForm.ButtonMirrorsGuard | components/auction/bid-form.tsx:421-427 | For a connected wallet with an address, the button is disabled iff the submit guard refuses or a transaction is pending or confirming |
| BidForm.ButtonLabel | components/auction/bid-form.tsx:429-439 | When idle, the label precedence is "Sold" over "Auction Ended" over "Buy Now" for reverse Dutch, and "Place Bid" otherwise. "Processing..." shows while submitting. Pending alone shows "Preparing Transaction...". Confirming alone shows "Confirming...". Both texts render together when both hold |
| BidForm.BuyNowIffOpen | components/auction/bid-form.tsx:432-439 | An idle reverse Dutch button reads "Buy Now" exactly when the sale is neither claimed nor past its deadline |
| BidForm.PriceStatus | components/auction/bid-form.tsx:285-289 | "Sold" takes precedence over "Auction Ended", which takes precedence over the live price in the bidding token |
| BidForm.PriceLineMatchesLabel | components/auction/bid-form.tsx:285-289 | For a reverse Dutch auction and an amount written as a number, the price line reads "Sold" iff the idle button does, "Auction Ended" iff the button does, and shows the live price iff the button offers "Buy Now" |
| BidForm.PollingOnlyWhileOpen | components/auction/bid-form.tsx:103-105 | Price polling starts only for an unclaimed reverse Dutch auction before its deadline, so only while the sale is open; with a known deadline, it starts exactly then. Without a deadline it never starts |
| BidForm.PrefillAsWritten | components/auction/bid-form.tsx:106-108 | With no bid, the pre-fill is exactly one increment, whatever the starting bid. Once a bid exists, it is the minimum bid |
| BidForm.PrefillCanBeBelowMinimum | components/auction/bid-form.tsx:106-108 | With no bids and a 1-token starting bid, the pre-filled amount is not a valid bid |
| BidForm.Prefill | components/auction/bid-form.tsx:106-108 | The corrected pre-fill is always a valid bid, is the smallest one, and agrees with the written pre-fill once a bid exists |
| LinearDutchService.Fields | lib/services/linear-dutch-auction-service.ts:351-368 | A record yields a 16-element tuple in contract order: id first, isClaimed last |
| LinearDutchService.TokenName | lib/services/linear-dutch-auction-service.ts:344-349 | Without a client, token names are empty |
| LinearDutchService.MapAuctionData | lib/services/linear-dutch-auction-service.ts:338-375 | Fails iff the input is not an array or has fewer than 16 elements. On success, the protocol is "Linear", the id is built from raw[0], the price and bid placeholders are 0, and the token names are resolved from raw[6] and raw[8] |
| LinearDutchService.MappedFieldsAreRaw | lib/services/linear-dutch-auction-service.ts:351-368 | Each named field of a mapped record (name = raw[1] … isClaimed = raw[15]) is the raw element at its index, so the record gives back the first sixteen raw elements |
| LinearDutchService.MapFieldsRoundTrip | lib/services/linear-dutch-auction-service.ts:351-374 | Mapping the tuple of a client-less record gives back that record |
| LinearDutchService.ExtraFieldsIgnored | lib/services/linear-dutch-auction-service.ts:339 | Elements beyond the sixteenth do not change the mapping |
| LinearDutchService.IdWindow | lib/services/linear-dutch-auction-service.ts:398-409 | The requested ids are min(n, counter) consecutive ids ending at counter−1; a negative n requests none |
| Common.PositionsSound | lib/services/linear-dutch-auction-service.ts:412 | The positions a filter keeps are accepted indices of the input, in strictly increasing order |
| Common.PositionsComplete | lib/services/linear-dutch-auction-service.ts:412 | Every accepted index is among the kept positions |
| LinearDutchService.Survivors | lib/services/linear-dutch-auction-service.ts:412 | The filtered list is never longer than the reads. Its content is stated by SurvivorsAtPositions: exactly the usable reads, in order |
| LinearDutchService.SurvivorsAtPositions | lib/services/linear-dutch-auction-service.ts:412 | The filter keeps exactly the reads that did not fail and returned something, in order: entry k is the read at the k-th such position |
| LinearDutchService.SurvivorsAllUsable | lib/services/linear-dutch-auction-service.ts:412 | When every read is usable, the filter keeps all of them in order |
| LinearDutchService.LastNAsWritten | lib/services/linear-dutch-auction-service.ts:411-415 | The listing has one entry per usable read, and entry k is the mapping of the k-th newest usable read, null mappings included |
| LinearDutchService.Reverse | lib/services/linear-dutch-auction-service.ts:415 | Entry k of the result is entry |s|−1−k of the input; the length is unchanged |
| LinearDutchService.ReadWindow | lib/services/linear-dutch-auction-service.ts:402-410 | One read per requested id, in id order |
| LinearDutchService.GetLastNAuctionsAsWritten | lib/services/linear-dutch-auction-service.ts:395-421 | Empty when the counter is 0; never longer than the id window |
| LinearDutchService.GetLastNAsWrittenKeepsNull | lib/services/linear-dutch-auction-service.ts:411-415 | A usable read that is not an array survives as a null entry in the listing |
| LinearDutchService.Present | lib/services/linear-dutch-auction-service.ts:414 | Dropping nulls never lengthens the list. Its content is stated by PresentAtPositions and PresentMembers: exactly the non-null values, in order |
| LinearDutchService.PresentAtPositions | lib/services/linear-dutch-auction-service.ts:414 | Dropping nulls keeps order and multiplicity: entry k is the value at the k-th non-null position |
| LinearDutchService.PresentMembers | lib/services/linear-dutch-auction-service.ts:414 | Dropping nulls keeps exactly the non-null values |
| LinearDutchService.PresentAllSome | lib/services/linear-dutch-auction-service.ts:414 | With no null entry, every value is kept, in order |
| LinearDutchService.GetLastNAuctions | lib/services/linear-dutch-auction-service.ts:395-421 | Empty when the counter is 0; never longer than the written listing |
| LinearDutchService.GetLastNAuctionsKeepsOrder | lib/services/linear-dutch-auction-service.ts:411-415 | The corrected listing is the written one with its nulls removed and nothing reordered: entry k is the k-th non-null entry of the written listing |
| LinearDutchService.GetLastNAuctionsMembers | lib/services/linear-dutch-auction-service.ts:411-415 | The corrected listing holds exactly the auctions the written listing holds |
| LinearDutchService.FullTupleMaps | lib/services/linear-dutch-auction-service.ts:412-413 | A successful read of a full tuple passes the filter and maps to a record carrying the tuple's id |
| LinearDutchService.AllTuplesListed | lib/services/linear-dutch-auction-service.ts:411-415 | When every read returns a full tuple, each one is listed, and entry k is the mapping of the k-th newest read |
| LinearDutchService.HealthyWindowReads | lib/services/linear-dutch-auction-service.ts:398-410 | On such a chain, the k-th read of the window is a full tuple for id counter−|window|+k |
| LinearDutchService.HealthyListing | lib/services/linear-dutch-auction-service.ts:411-415 | On such a chain, the written listing has no null entry, and entry k is auction counter−1−k |
| LinearDutchService.PresentNewestFirst | lib/services/linear-dutch-auction-service.ts:414-415 | A null-free listing whose entry k is auction counter−1−k keeps that order after nulls are dropped |
| LinearDutchService.NewestFirst | lib/services/linear-dutch-auction-service.ts:398-415 | On a chain where each auction reads back its own id, the corrected listing has min(n, counter) entries and entry k is auction counter−1−k |
| LinearDutchService.GetAllAuctions | lib/services/linear-dutch-auction-service.ts:566-574 | The written listing of the last 50: empty when the counter is 0, and at most min(50, counter) entries, nulls included |
| LinearDutchService.AllAuctionsNewestFirst | lib/services/linear-dutch-auction-service.ts:566-574 | On a chain where each auction reads back its own id, there are min(50, counter) entries, none null, and entry k is auction counter−1−k |
| LinearDutchService.PlaceBid | lib/services/linear-dutch-auction-service.ts:477-486 | Bidding is refused for every argument |
| LinearDutchService.GetAuction | lib/services/linear-dutch-auction-service.ts:542-564 | Fails, naming the id, iff mapping yields null; otherwise returns the mapped record |
| LinearDutchService.GetBidHistory | lib/services/linear-dutch-auction-service.ts:576-583 | The history is always empty |
| LinearDutchService.AuctionedAmount | lib/services/linear-dutch-auction-service.ts:451 | For an NFT (type 0), the amount is the raw token id, unchanged |
| LinearDutchService.CreateAuction | lib/services/linear-dutch-auction-service.ts:445-475 | Exactly an approve, then a create. The approved amount equals the created amount. The approve targets the auctioned token with the contract as spender and is an NFT approval iff type 0. A non-NFT amount is the whole-token count scaled to wei. The name, description, image URL, auction type, prices, bidding token and duration pass through |
| AuctionCard.StatusBadge | components/auction/auction-card.tsx:27-48 | "active" gives "Active", "ended" gives "Ended", and any other status gives "Upcoming". Background and text colour share one hue: green-500 when active, gray-500 when ended, and blue-500 otherwise. The opacity is always bg-opacity-10 |
| AuctionCard.InitiallyWatched | components/auction/auction-card.tsx:22-24 | The card starts watched iff the current address is present and among the watchers |
| AuctionCard.ToggleWatchlist | components/auction/auction-card.tsx:50-64 | Disconnected: no storage event and no change. Connected: exactly one event for the card's key (a remove iff it was watched), and the flag flips |
| AuctionCard.ToggleTwiceRestores | components/auction/auction-card.tsx:54-63 | Two connected toggles restore the flag, and their events undo each other |
| AuctionCard.ToggleKeepsStoreInStep | components/auction/auction-card.tsx:54-63 | If the flag matched storage before a toggle, it matches after, and other auctions' entries are untouched |
| AuctionCard.Clamp | components/auction/auction-card.tsx:135 | A substring index is clamped into the string and unchanged when already inside |
| AuctionCard.Substring | components/auction/auction-card.tsx:135 | Agrees with slicing for in-range, ordered indices; swaps reversed ones; never longer than the string |
| AuctionCard.AbbreviateCreator | components/auction/auction-card.tsx:135 | The result is the first six characters, then "...", then the characters from index 38 on. Short names keep what they have. A 42-character address gives 13 characters |
| AuctionCard.AbbreviationShape | components/auction/auction-card.tsx:135 | For every length: the result is the head, the ellipsis and the tail, and its length is head + 3 + tail |
| AuctionCard.TimeCaption | components/auction/auction-card.tsx:124-130 | "Starts" with the start time iff upcoming. "Ends" iff active. "Ended" for every other status. Both of those use the end time |
| AuctionCard.CaptionAgreesWithBadge | components/auction/auction-card.tsx:124-130 | For the three real statuses, the caption verb and the badge text agree |

## Findings

| source | as written | input that shows it | evidently intended | confidence | as-written member | corrected member |
|---|---|---|---|---|---|---|
| components/auction/bid-form.tsx:106-108 | The bid field is pre-filled with highest bid + increment even when there is no bid, while the minimum is then the starting bid | No bids, no increment, starting bid 1 token: the pre-fill is 0.1 token, below the 1-token minimum | Pre-fill the minimum bid | medium, not executed | BidForm.PrefillAsWritten (exhibited by BidForm.PrefillCanBeBelowMinimum) | BidForm.Prefill |
| lib/services/linear-dutch-auction-service.ts:411-415 | The `auction !== null` filter runs on the array of promises, so it removes nothing | One auction whose read returns a non-zero scalar: the listing is `[null]` | Null mappings are removed from the listing | high, not executed | LinearDutchService.GetLastNAuctionsAsWritten (exhibited by LinearDutchService.GetLastNAsWrittenKeepsNull) | LinearDutchService.GetLastNAuctions |

## Left out

- Float display conversions: `Number(x)/1e18`, `toFixed`, `parseFloat` and `Math.floor(parseFloat*1e18)` are lossy. All amounts are integer wei, and the entered amount is an optional integer (`None` where `parseFloat` yields NaN).
- `Number(deadline)` loses precision above 2^53. Deadlines are exact integers here.
- Contract I/O: `readContracts`, `writeContract`, `getAuctionCounter`, `getCurrentPrice` and `approveToken` are network and wallet calls. Their answers are parameters (the counter, a per-id read function) and their writes are returned as call values. Errors that these calls throw and that are rethrown are not modelled.
- `withdrawItem` and `withdrawFunds` of the Linear Dutch service are left out. They are contract writes. `withdrawItem` reads `auctionData[5]` and `[7]` positionally from the keyed record `getAuction` returns, which is not a meaningful rule.
- The local price-decay curve is left out: the code has none. The current price is fetched from the contract.
- `generateCode`, `decode`, `append`, `remove`, `loadWishlist`, `getAuctionService`, `parseEther` and `formatDistanceToNow` have no bodies in the modelled files. `generateCode` is the `AuctionCode` constructor. `decode` is replaced by the auction id passed in. `append`/`remove` are storage events. `parseEther(String(x))` is the `toWei` parameter. The time formatting is left out.
- LinearDutchService.MapAuctionData: the token-name resolver is total here. A resolver that throws would make `getLastNAuctions` reject as a whole, and that case is not modelled.
- React machinery is left out: hooks, effects, the 5-second polling interval, the success toast timer, transaction-receipt states (these are inputs `isPending`/`isConfirming`), animations and JSX layout. The Vickrey commit and reveal forms are separate components, and the panel the bid form shows for each phase follows `VickreyPhase` directly.
- Static data is left out: the `LINEAR_DUTCH_ABI` literal and the contract address, which is a parameter of `CreateAuction`.
- `components/layout/navbar.tsx` is navigation UI. Its only logic is a path-equality highlight.
