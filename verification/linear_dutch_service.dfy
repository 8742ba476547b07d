/** The Linear Dutch auction service: turning the contract's raw 16-field
    auction tuple into a keyed record, listing the most recent auctions,
    building the approve-then-create calls, and the entry points that always
    refuse or return nothing. Contract reads and writes are not performed
    here: what the chain returned is an argument, and what would be written
    is the result. */
module LinearDutchService {
  import opened Common

  /** One element of a contract return tuple. */
  datatype RawValue =
    | UInt(n: nat)
    | Text(s: string)
    | Address(a: string)
    | Flag(b: bool)

  /** What a contract read produced: nothing, a single value, or a tuple. */
  datatype RawData = Absent | Scalar(v: RawValue) | Tuple(fields: seq<RawValue>)

  /** The number of fields in the contract's `auctions(id)` tuple. */
  const Arity: nat := 16

  /** The external id the mapper builds from a protocol tag and the raw
      on-chain id; the encoding itself is not part of this model. */
  datatype AuctionCode = Code(protocol: string, onChainId: RawValue)

  /** Resolves a token address to its display name. */
  datatype Client = Client(tokenName: RawValue -> string)

  /** A mapped Linear Dutch auction. `currentPrice` and `higheshtBid`
      (spelled as in the source record) are zero placeholders. */
  datatype LinearAuction = LinearAuction(
    protocol: string,
    id: AuctionCode,
    name: RawValue,
    description: RawValue,
    imgUrl: RawValue,
    auctioneer: RawValue,
    auctionType: RawValue,
    auctionedToken: RawValue,
    auctionedTokenIdOrAmount: RawValue,
    biddingToken: RawValue,
    startingPrice: RawValue,
    availableFunds: RawValue,
    reservedPrice: RawValue,
    winner: RawValue,
    deadline: RawValue,
    duration: RawValue,
    isClaimed: RawValue,
    currentPrice: nat,
    higheshtBid: nat,
    auctionedTokenName: string,
    biddingTokenName: string)

  /** The raw tuple a record was read from, in contract order. */
  function Fields(a: LinearAuction): (fs: seq<RawValue>)
    ensures |fs| == Arity
    ensures fs[0] == a.id.onChainId && fs[1] == a.name && fs[15] == a.isClaimed
  {
    [a.id.onChainId, a.name, a.description, a.imgUrl, a.auctioneer, a.auctionType,
     a.auctionedToken, a.auctionedTokenIdOrAmount, a.biddingToken, a.startingPrice,
     a.availableFunds, a.reservedPrice, a.winner, a.deadline, a.duration, a.isClaimed]
  }

  /** Token names as the mapper resolves them: empty without a client. */
  function TokenName(client: Option<Client>, token: RawValue): (name: string)
    ensures client.None? ==> name == ""
  {
    if client.Some? then client.value.tokenName(token) else ""
  }

  /** Maps a raw tuple positionally; `None` when the read produced no array
      or one with fewer than 16 elements. Longer arrays are accepted. */
  function MapAuctionData(raw: RawData, client: Option<Client>): (r: Option<LinearAuction>)
    ensures r.None? <==> !raw.Tuple? || |raw.fields| < Arity
    ensures r.Some? ==>
              && r.value.protocol == "Linear"
              && r.value.id == Code("Linear", raw.fields[0])
              && r.value.currentPrice == 0 && r.value.higheshtBid == 0
              && r.value.auctionedTokenName == TokenName(client, raw.fields[6])
              && r.value.biddingTokenName == TokenName(client, raw.fields[8])
  {
    if !raw.Tuple? || |raw.fields| < Arity then None
    else
      var f := raw.fields;
      Some(LinearAuction(
        "Linear", Code("Linear", f[0]), f[1], f[2], f[3], f[4], f[5], f[6], f[7],
        f[8], f[9], f[10], f[11], f[12], f[13], f[14], f[15], 0, 0,
        TokenName(client, f[6]), TokenName(client, f[8])))
  }

  /** Each named field of a mapped record is the raw element at its fixed
      index, so the record gives back the first sixteen raw elements. */
  lemma MappedFieldsAreRaw(raw: RawData, client: Option<Client>)
    requires MapAuctionData(raw, client).Some?
    ensures var r := MapAuctionData(raw, client);
              && r.value.name == raw.fields[1] && r.value.description == raw.fields[2]
              && r.value.imgUrl == raw.fields[3] && r.value.auctioneer == raw.fields[4]
              && r.value.auctionType == raw.fields[5] && r.value.auctionedToken == raw.fields[6]
              && r.value.auctionedTokenIdOrAmount == raw.fields[7]
              && r.value.biddingToken == raw.fields[8] && r.value.startingPrice == raw.fields[9]
              && r.value.availableFunds == raw.fields[10] && r.value.reservedPrice == raw.fields[11]
              && r.value.winner == raw.fields[12] && r.value.deadline == raw.fields[13]
              && r.value.duration == raw.fields[14] && r.value.isClaimed == raw.fields[15]
              && Fields(r.value) == raw.fields[..Arity]
  {
  }

  /** A record the mapper can produce without a client. */
  predicate Unenriched(a: LinearAuction)
  {
    && a.protocol == "Linear" && a.id.protocol == "Linear"
    && a.currentPrice == 0 && a.higheshtBid == 0
    && a.auctionedTokenName == "" && a.biddingTokenName == ""
  }

  /** Mapping inverts `Fields`: the mapper loses nothing of the tuple. */
  lemma MapFieldsRoundTrip(a: LinearAuction)
    requires Unenriched(a)
    ensures MapAuctionData(Tuple(Fields(a)), None) == Some(a)
  {
  }

  /** Fields beyond the sixteenth are ignored. */
  lemma ExtraFieldsIgnored(fs: seq<RawValue>, extra: seq<RawValue>, client: Option<Client>)
    requires |fs| == Arity
    ensures MapAuctionData(Tuple(fs + extra), client) == MapAuctionData(Tuple(fs), client)
  {
    assert (fs + extra)[..Arity] == fs;
  }

  // ---------------------------------------------------------------------------
  // Listing the most recent auctions

  function Min(x: int, y: int): int
  {
    if x <= y then x else y
  }

  /** The ids requested for the last `n` auctions below `counter`. */
  function IdWindow(counter: nat, n: int): (ids: seq<nat>)
    ensures n >= 0 ==> |ids| == Min(n, counter)
    ensures n < 0 ==> ids == []
    ensures forall k :: 0 <= k < |ids| ==> ids[k] == counter - |ids| + k
  {
    var start := if counter > n then counter - n else 0;
    if start >= counter then [] else seq(counter - start, k => start + k)
  }

  /** The result of one `auctions(id)` read. */
  datatype ReadResult = ReadResult(error: bool, result: RawData)

  /** JavaScript truthiness of a read's `result`. */
  predicate Truthy(d: RawData)
  {
    match d
    case Absent => false
    case Tuple(_) => true
    case Scalar(v) =>
      match v
      case UInt(n) => n != 0
      case Text(s) => s != ""
      case Address(s) => s != ""
      case Flag(b) => b
  }

  /** A read that did not fail and returned something. */
  predicate Usable(r: ReadResult)
  {
    !r.error && Truthy(r.result)
  }

  /** The raw data of the usable reads, oldest first: the `filter` on the
      settled reads. */
  function Survivors(rs: seq<ReadResult>): (ds: seq<RawData>)
    ensures |ds| <= |rs|
  {
    SurvivorsFrom(rs, 0)
  }

  /** The raw data of the usable reads at or after `i`. */
  function SurvivorsFrom(rs: seq<ReadResult>, i: nat): (ds: seq<RawData>)
    requires i <= |rs|
    ensures |ds| <= |rs| - i
    decreases |rs| - i
  {
    if i == |rs| then []
    else (if Usable(rs[i]) then [rs[i].result] else []) + SurvivorsFrom(rs, i + 1)
  }

  lemma {:induction false} SurvivorsFromAtPositions(rs: seq<ReadResult>, i: nat)
    requires i <= |rs|
    ensures |SurvivorsFrom(rs, i)| == |PositionsFrom(rs, Usable, i)|
    ensures forall k :: 0 <= k < |SurvivorsFrom(rs, i)| ==>
              PositionsFrom(rs, Usable, i)[k] < |rs|
              && SurvivorsFrom(rs, i)[k] == rs[PositionsFrom(rs, Usable, i)[k]].result
    decreases |rs| - i
  {
    if i < |rs| {
      SurvivorsFromAtPositions(rs, i + 1);
      var ds := SurvivorsFrom(rs, i);
      var tail := SurvivorsFrom(rs, i + 1);
      var ix := PositionsFrom(rs, Usable, i);
      var rest := PositionsFrom(rs, Usable, i + 1);
      if Usable(rs[i]) {
        assert ds == [rs[i].result] + tail;
        assert ix == [i] + rest;
        forall k | 0 <= k < |ds|
          ensures ix[k] < |rs| && ds[k] == rs[ix[k]].result
        {
          if k > 0 {
            assert ds[k] == tail[k - 1] && ix[k] == rest[k - 1];
          }
        }
      } else {
        assert ds == tail && ix == rest;
      }
    }
  }

  /** The filter keeps exactly the usable reads, in order: entry k of the
      survivors is the read at the k-th usable position. */
  lemma SurvivorsAtPositions(rs: seq<ReadResult>)
    ensures |Survivors(rs)| == |Positions(rs, Usable)|
    ensures forall k :: 0 <= k < |Survivors(rs)| ==>
              Positions(rs, Usable)[k] < |rs| && Survivors(rs)[k] == rs[Positions(rs, Usable)[k]].result
  {
    SurvivorsFromAtPositions(rs, 0);
    assert Positions(rs, Usable) == PositionsFrom(rs, Usable, 0);
  }

  lemma {:induction false} SurvivorsFromAllUsable(rs: seq<ReadResult>, i: nat)
    requires i <= |rs|
    requires forall k :: i <= k < |rs| ==> Usable(rs[k])
    ensures |SurvivorsFrom(rs, i)| == |rs| - i
    ensures forall k :: 0 <= k < |rs| - i ==> SurvivorsFrom(rs, i)[k] == rs[i + k].result
    decreases |rs| - i
  {
    if i < |rs| {
      SurvivorsFromAllUsable(rs, i + 1);
      var tail := SurvivorsFrom(rs, i + 1);
      assert SurvivorsFrom(rs, i) == [rs[i].result] + tail;
    }
  }

  /** When every read is usable, the filter keeps them all, in order. */
  lemma SurvivorsAllUsable(rs: seq<ReadResult>)
    requires forall k :: 0 <= k < |rs| ==> Usable(rs[k])
    ensures |Survivors(rs)| == |rs|
    ensures forall k :: 0 <= k < |rs| ==> Survivors(rs)[k] == rs[k].result
  {
    SurvivorsFromAllUsable(rs, 0);
    var ds := SurvivorsFrom(rs, 0);
    assert Survivors(rs) == ds;
    forall k | 0 <= k < |rs|
      ensures ds[k] == rs[k].result
    {
      assert ds[k] == rs[0 + k].result;
    }
  }

  /** A sequence in reverse order. */
  function Reverse<T>(xs: seq<T>): (r: seq<T>)
    ensures |r| == |xs|
    ensures forall k :: 0 <= k < |xs| ==> r[k] == xs[|xs| - 1 - k]
  {
    if xs == [] then [] else Reverse(xs[1..]) + [xs[0]]
  }

  /** The listing as written: usable reads are mapped and reversed, newest
      first. The null filter runs on pending promises, so a usable read that
      maps to `None` stays in the list. */
  function LastNAsWritten(rs: seq<ReadResult>, client: Option<Client>): (out: seq<Option<LinearAuction>>)
    ensures |out| == |Survivors(rs)|
    ensures forall k :: 0 <= k < |out| ==>
              out[k] == MapAuctionData(Survivors(rs)[|out| - 1 - k], client)
  {
    var ds := Survivors(rs);
    var os := seq(|ds|, k requires 0 <= k < |ds| => MapAuctionData(ds[k], client));
    var out := Reverse(os);
    assert forall k :: 0 <= k < |out| ==> out[k] == os[|ds| - 1 - k];
    out
  }

  predicate IsPresent(o: Option<LinearAuction>)
  {
    o.Some?
  }

  /** The present values, in order: the listing with its null entries
      removed. */
  function Present(os: seq<Option<LinearAuction>>): (xs: seq<LinearAuction>)
    ensures |xs| <= |os|
  {
    PresentFrom(os, 0)
  }

  /** The present values at or after `i`. */
  function PresentFrom(os: seq<Option<LinearAuction>>, i: nat): (xs: seq<LinearAuction>)
    requires i <= |os|
    ensures |xs| <= |os| - i
    decreases |os| - i
  {
    if i == |os| then []
    else (if os[i].Some? then [os[i].value] else []) + PresentFrom(os, i + 1)
  }

  lemma {:induction false} PresentFromAtPositions(os: seq<Option<LinearAuction>>, i: nat)
    requires i <= |os|
    ensures |PresentFrom(os, i)| == |PositionsFrom(os, IsPresent, i)|
    ensures forall k :: 0 <= k < |PresentFrom(os, i)| ==>
              PositionsFrom(os, IsPresent, i)[k] < |os|
              && os[PositionsFrom(os, IsPresent, i)[k]] == Some(PresentFrom(os, i)[k])
    decreases |os| - i
  {
    if i < |os| {
      PresentFromAtPositions(os, i + 1);
      var xs := PresentFrom(os, i);
      var tail := PresentFrom(os, i + 1);
      var ix := PositionsFrom(os, IsPresent, i);
      var rest := PositionsFrom(os, IsPresent, i + 1);
      if os[i].Some? {
        assert xs == [os[i].value] + tail;
        assert ix == [i] + rest;
        forall k | 0 <= k < |xs|
          ensures ix[k] < |os| && os[ix[k]] == Some(xs[k])
        {
          if k > 0 {
            assert xs[k] == tail[k - 1] && ix[k] == rest[k - 1];
          }
        }
      } else {
        assert xs == tail && ix == rest;
      }
    }
  }

  /** Dropping nulls keeps order and multiplicity: entry k is the value at
      the k-th present position. */
  lemma PresentAtPositions(os: seq<Option<LinearAuction>>)
    ensures |Present(os)| == |Positions(os, IsPresent)|
    ensures forall k :: 0 <= k < |Present(os)| ==>
              Positions(os, IsPresent)[k] < |os| && os[Positions(os, IsPresent)[k]] == Some(Present(os)[k])
  {
    PresentFromAtPositions(os, 0);
    assert Positions(os, IsPresent) == PositionsFrom(os, IsPresent, 0);
  }

  /** Dropping nulls keeps exactly the present values. */
  lemma PresentMembers(os: seq<Option<LinearAuction>>)
    ensures forall x :: x in Present(os) <==> Some(x) in os
  {
    PresentAtPositions(os);
    var xs := Present(os);
    var ix := Positions(os, IsPresent);
    forall x | Some(x) in os
      ensures x in xs
    {
      var p :| 0 <= p < |os| && os[p] == Some(x);
      PositionsComplete(os, IsPresent, p);
      var k :| 0 <= k < |ix| && ix[k] == p;
      assert xs[k] == x;
    }
  }

  lemma {:induction false} PresentFromAllSome(os: seq<Option<LinearAuction>>, i: nat)
    requires i <= |os|
    requires forall k :: i <= k < |os| ==> os[k].Some?
    ensures |PresentFrom(os, i)| == |os| - i
    ensures forall k :: 0 <= k < |os| - i ==> Some(PresentFrom(os, i)[k]) == os[i + k]
    decreases |os| - i
  {
    if i < |os| {
      PresentFromAllSome(os, i + 1);
      var tail := PresentFrom(os, i + 1);
      assert PresentFrom(os, i) == [os[i].value] + tail;
    }
  }

  /** With no null entry, every value is kept, in order. */
  lemma PresentAllSome(os: seq<Option<LinearAuction>>)
    requires forall k :: 0 <= k < |os| ==> os[k].Some?
    ensures |Present(os)| == |os|
    ensures forall k :: 0 <= k < |os| ==> Some(Present(os)[k]) == os[k]
  {
    PresentFromAllSome(os, 0);
  }

  /** The reads for a window of ids, given what the chain answers per id. */
  function ReadWindow(ids: seq<nat>, chain: nat -> ReadResult): (rs: seq<ReadResult>)
    ensures |rs| == |ids|
    ensures forall k :: 0 <= k < |ids| ==> rs[k] == chain(ids[k])
  {
    seq(|ids|, k requires 0 <= k < |ids| => chain(ids[k]))
  }

  /** `getLastNAuctions` as written: nothing when the counter is 0, else the
      window's reads mapped newest first, null mappings included. */
  function GetLastNAuctionsAsWritten(counter: nat, n: int, chain: nat -> ReadResult,
                                     client: Option<Client>): (out: seq<Option<LinearAuction>>)
    ensures counter == 0 ==> out == []
    ensures |out| <= if n >= 0 then Min(n, counter) else 0
  {
    if counter == 0 then [] else LastNAsWritten(ReadWindow(IdWindow(counter, n), chain), client)
  }

  /** A chain whose only auction reads back as a bare non-zero number: the
      listing as written hands back a `None` entry although the code means
      to remove null mappings. */
  lemma GetLastNAsWrittenKeepsNull()
    ensures GetLastNAuctionsAsWritten(1, 10, i => ReadResult(false, Scalar(UInt(7))), None) == [None]
  {
    var rs := ReadWindow(IdWindow(1, 10), i => ReadResult(false, Scalar(UInt(7))));
    assert rs == [ReadResult(false, Scalar(UInt(7)))];
    assert Survivors(rs) == [Scalar(UInt(7))];
  }

  /** `getLastNAuctions` with the null filter taking effect: the written
      listing with its null entries removed, newest first as before. */
  function GetLastNAuctions(counter: nat, n: int, chain: nat -> ReadResult,
                            client: Option<Client>): (out: seq<LinearAuction>)
    ensures counter == 0 ==> out == []
    ensures |out| <= |GetLastNAuctionsAsWritten(counter, n, chain, client)|
  {
    Present(GetLastNAuctionsAsWritten(counter, n, chain, client))
  }

  /** The corrected listing is the written one without its null entries, in
      the same order: entry k is the k-th present entry of the written
      listing. */
  lemma GetLastNAuctionsKeepsOrder(counter: nat, n: int, chain: nat -> ReadResult, client: Option<Client>)
    ensures var listed := GetLastNAuctionsAsWritten(counter, n, chain, client);
            var out := GetLastNAuctions(counter, n, chain, client);
            var ix := Positions(listed, IsPresent);
            && |out| == |ix|
            && forall k :: 0 <= k < |out| ==> ix[k] < |listed| && listed[ix[k]] == Some(out[k])
  {
    PresentAtPositions(GetLastNAuctionsAsWritten(counter, n, chain, client));
  }

  /** The corrected listing holds exactly the auctions the written listing
      holds. */
  lemma GetLastNAuctionsMembers(counter: nat, n: int, chain: nat -> ReadResult, client: Option<Client>)
    ensures forall a :: a in GetLastNAuctions(counter, n, chain, client) <==>
              Some(a) in GetLastNAuctionsAsWritten(counter, n, chain, client)
  {
    PresentMembers(GetLastNAuctionsAsWritten(counter, n, chain, client));
  }

  /** `getAllAuctions`: the written listing of the last 50, null entries
      included. */
  function GetAllAuctions(counter: nat, chain: nat -> ReadResult, client: Option<Client>): (out: seq<Option<LinearAuction>>)
    ensures counter == 0 ==> out == []
    ensures |out| <= Min(50, counter)
  {
    GetLastNAuctionsAsWritten(counter, 50, chain, client)
  }

  /** A chain whose every auction below `counter` reads back as a full tuple
      carrying its own id. */
  predicate HealthyChain(counter: nat, chain: nat -> ReadResult)
  {
    forall i: nat :: i < counter ==>
      && !chain(i).error && chain(i).result.Tuple?
      && |chain(i).result.fields| >= Arity && chain(i).result.fields[0] == UInt(i)
  }

  /** A read that succeeded with a tuple the mapper accepts. */
  predicate FullTuple(r: ReadResult)
  {
    !r.error && r.result.Tuple? && |r.result.fields| >= Arity
  }

  /** A full tuple survives the filter and maps to a record carrying its id. */
  lemma FullTupleMaps(r: ReadResult, client: Option<Client>)
    requires FullTuple(r)
    ensures Usable(r)
    ensures MapAuctionData(r.result, client).Some?
    ensures MapAuctionData(r.result, client).value.id == Code("Linear", r.result.fields[0])
  {
  }

  /** Reads that all return full tuples are listed one for one, newest first. */
  lemma AllTuplesListed(rs: seq<ReadResult>, client: Option<Client>)
    requires forall k :: 0 <= k < |rs| ==> FullTuple(rs[k])
    ensures |LastNAsWritten(rs, client)| == |rs|
    ensures forall k :: 0 <= k < |rs| ==>
              LastNAsWritten(rs, client)[k] == MapAuctionData(rs[|rs| - 1 - k].result, client)
  {
    assert forall k :: 0 <= k < |rs| ==> Usable(rs[k]);
    SurvivorsAllUsable(rs);
    var out := LastNAsWritten(rs, client);
    forall k | 0 <= k < |rs|
      ensures out[k] == MapAuctionData(rs[|rs| - 1 - k].result, client)
    {
      assert Survivors(rs)[|rs| - 1 - k] == rs[|rs| - 1 - k].result;
    }
  }

  /** On a healthy chain every read of the id window is a full tuple that
      carries its id. */
  lemma HealthyWindowReads(counter: nat, n: nat, chain: nat -> ReadResult)
    requires HealthyChain(counter, chain)
    ensures var rs := ReadWindow(IdWindow(counter, n), chain);
            forall k :: 0 <= k < |rs| ==>
              FullTuple(rs[k]) && rs[k].result.fields[0] == UInt(counter - |rs| + k)
  {
    var ids := IdWindow(counter, n);
    var rs := ReadWindow(ids, chain);
    forall k | 0 <= k < |rs|
      ensures FullTuple(rs[k]) && rs[k].result.fields[0] == UInt(counter - |rs| + k)
    {
      assert rs[k] == chain(ids[k]);
    }
  }

  /** On a healthy chain the written listing is all present and newest first. */
  lemma {:induction false} HealthyListing(counter: nat, n: nat, chain: nat -> ReadResult, client: Option<Client>)
    requires HealthyChain(counter, chain)
    ensures var listed := GetLastNAuctionsAsWritten(counter, n, chain, client);
            && |listed| == Min(n, counter)
            && forall k :: 0 <= k < |listed| ==>
                 listed[k].Some? && listed[k].value.id == Code("Linear", UInt(counter - 1 - k))
  {
    if counter != 0 {
      var rs := ReadWindow(IdWindow(counter, n), chain);
      HealthyWindowReads(counter, n, chain);
      AllTuplesListed(rs, client);
      var listed := LastNAsWritten(rs, client);
      assert GetLastNAuctionsAsWritten(counter, n, chain, client) == listed;
      forall k | 0 <= k < |listed|
        ensures listed[k].Some? && listed[k].value.id == Code("Linear", UInt(counter - 1 - k))
      {
        FullTupleMaps(rs[|rs| - 1 - k], client);
      }
    }
  }

  /** A listing with no null entry whose entry k is auction counter-1-k
      keeps that order once nulls are dropped. */
  lemma PresentNewestFirst(listed: seq<Option<LinearAuction>>, counter: nat)
    requires |listed| <= counter
    requires forall k :: 0 <= k < |listed| ==>
               listed[k].Some? && listed[k].value.id == Code("Linear", UInt(counter - 1 - k))
    ensures |Present(listed)| == |listed|
    ensures forall k :: 0 <= k < |listed| ==> Present(listed)[k].id == Code("Linear", UInt(counter - 1 - k))
  {
    PresentAllSome(listed);
  }

  /** On a healthy chain the listing holds exactly min(n, counter) auctions,
      the newest first: entry k is auction counter-1-k. */
  lemma {:induction false} NewestFirst(counter: nat, n: nat, chain: nat -> ReadResult, client: Option<Client>)
    requires HealthyChain(counter, chain)
    ensures var out := GetLastNAuctions(counter, n, chain, client);
            && |out| == Min(n, counter) <= counter
            && forall k :: 0 <= k < |out| ==> out[k].id == Code("Linear", UInt(counter - 1 - k))
  {
    HealthyListing(counter, n, chain, client);
    var listed := GetLastNAuctionsAsWritten(counter, n, chain, client);
    PresentNewestFirst(listed, counter);
    assert |listed| <= counter;
    assert GetLastNAuctions(counter, n, chain, client) == Present(listed);
  }


  /** On a healthy chain `getAllAuctions` lists the min(50, counter) newest
      auctions, each present, entry k being auction counter-1-k. */
  lemma {:induction false} AllAuctionsNewestFirst(counter: nat, chain: nat -> ReadResult, client: Option<Client>)
    requires HealthyChain(counter, chain)
    ensures var out := GetAllAuctions(counter, chain, client);
            && |out| == Min(50, counter)
            && forall k :: 0 <= k < |out| ==>
                 out[k].Some? && out[k].value.id == Code("Linear", UInt(counter - 1 - k))
  {
    HealthyListing(counter, 50, chain, client);
  }

  // ---------------------------------------------------------------------------
  // Calls with a fixed outcome

  datatype ServiceError =
    | BiddingUnsupported                  // placeBid on a Linear Dutch auction
    | InvalidAuctionData(auctionId: nat)  // getAuction on data the mapper rejects

  /** `placeBid`: Linear Dutch auctions are bought, never bid on. */
  function PlaceBid(auctionId: nat, bidAmount: int, tokenAddress: string, auctionType: int): (r: Result<(), ServiceError>)
    ensures r.Err? && r.error.BiddingUnsupported?
  {
    Err(BiddingUnsupported)
  }

  /** `getAuction`: the mapped record, or an error naming the id. */
  function GetAuction(auctionId: nat, raw: RawData, client: Option<Client>): (r: Result<LinearAuction, ServiceError>)
    ensures r.Err? <==> MapAuctionData(raw, client).None?
    ensures r.Err? ==> r.error == InvalidAuctionData(auctionId)
    ensures r.Ok? ==> MapAuctionData(raw, client) == Some(r.value)
  {
    match MapAuctionData(raw, client)
    case None => Err(InvalidAuctionData(auctionId))
    case Some(a) => Ok(a)
  }

  datatype Bid = Bid(auctionId: nat, bidder: string, amount: nat, timestamp: int)

  /** `getBidHistory`: this service keeps no bid history. */
  function GetBidHistory(auctionId: nat, startBlock: nat, endBlock: nat): (bids: seq<Bid>)
    ensures |bids| == 0
  {
    []
  }

  // ---------------------------------------------------------------------------
  // Creating an auction

  /** The parameters of `createAuction`. */
  datatype DutchAuctionParams = DutchAuctionParams(
    name: string,
    description: string,
    imgUrl: string,
    auctionType: int,  // 0 = NFT, 1 = ERC20
    auctionedToken: string,
    auctionedTokenIdOrAmount: int,
    biddingToken: string,
    startingPrice: int,
    reservedPrice: int,
    duration: int)

  /** The contract writes a service issues, in order. */
  datatype WriteCall =
    | Approve(token: string, spender: string, amount: int, isNft: bool)
    | CreateAuctionCall(name: string, description: string, imgUrl: string, auctionType: int,
                        auctionedToken: string, amount: int, biddingToken: string,
                        startingPrice: int, reservedPrice: int, duration: int)

  /** The amount of the auctioned asset: the token id itself for an NFT,
      otherwise the whole-token count scaled by `toWei` (the source's
      `parseEther(String(x))`). */
  function AuctionedAmount(p: DutchAuctionParams, toWei: int -> int): (amount: int)
    ensures p.auctionType == 0 ==> amount == p.auctionedTokenIdOrAmount
  {
    if p.auctionType == 0 then p.auctionedTokenIdOrAmount else toWei(p.auctionedTokenIdOrAmount)
  }

  /** `createAuction`: approve the contract for the auctioned asset, then
      create the auction with the same amount. */
  function CreateAuction(contractAddress: string, p: DutchAuctionParams, toWei: int -> int): (calls: seq<WriteCall>)
    ensures |calls| == 2 && calls[0].Approve? && calls[1].CreateAuctionCall?
    ensures calls[0].amount == calls[1].amount
    ensures calls[0].token == p.auctionedToken == calls[1].auctionedToken
    ensures calls[0].spender == contractAddress
    ensures calls[0].isNft <==> p.auctionType == 0
    ensures p.auctionType == 0 ==> calls[1].amount == p.auctionedTokenIdOrAmount
    ensures p.auctionType != 0 ==> calls[1].amount == toWei(p.auctionedTokenIdOrAmount)
    ensures calls[1].name == p.name && calls[1].description == p.description
    ensures calls[1].imgUrl == p.imgUrl && calls[1].auctionType == p.auctionType
    ensures calls[1].startingPrice == p.startingPrice && calls[1].reservedPrice == p.reservedPrice
    ensures calls[1].biddingToken == p.biddingToken && calls[1].duration == p.duration
  {
    var amount := AuctionedAmount(p, toWei);
    [Approve(p.auctionedToken, contractAddress, amount, p.auctionType == 0),
     CreateAuctionCall(p.name, p.description, p.imgUrl, p.auctionType, p.auctionedToken,
                       amount, p.biddingToken, p.startingPrice, p.reservedPrice, p.duration)]
  }
}
