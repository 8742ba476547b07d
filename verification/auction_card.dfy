/** The display state of an auction card: the status badge, the watchlist
    toggle, the abbreviated creator address and the time caption. The
    storage calls `append` and `remove` are abstract events; `StoreAfter`
    gives them their intended meaning on a set of watched keys. */
module AuctionCard {
  import opened Common

  /** The status badge: its text and colour classes. */
  datatype Badge = Badge(text: string, bgColor: string, textColor: string, bgOpacity: string)

  /** The badge for an auction status: "active" and "ended" are recognised,
      every other status reads as upcoming. */
  function StatusBadge(status: string): (b: Badge)
    ensures b.text == "Active" <==> status == "active"
    ensures b.text == "Ended" <==> status == "ended"
    ensures b.text == "Upcoming" <==> status != "active" && status != "ended"
    ensures b.bgOpacity == "bg-opacity-10"
    ensures exists hue :: b.bgColor == "bg-" + hue && b.textColor == "text-" + hue
    ensures status == "active" ==> b.bgColor == "bg-green-500" && b.textColor == "text-green-500"
    ensures status == "ended" ==> b.bgColor == "bg-gray-500" && b.textColor == "text-gray-500"
    ensures status != "active" && status != "ended" ==>
              b.bgColor == "bg-blue-500" && b.textColor == "text-blue-500"
  {
    var hue := if status == "active" then "green-500"
               else if status == "ended" then "gray-500"
               else "blue-500";
    var text := if status == "active" then "Active"
                else if status == "ended" then "Ended"
                else "Upcoming";
    Badge(text, "bg-" + hue, "text-" + hue, "bg-opacity-10")
  }

  // ---------------------------------------------------------------------------
  // Watchlist

  /** The storage key of an auction: its type and its id. */
  datatype WatchKey = WatchKey(auctionType: string, auctionId: string)

  datatype StorageEvent = Append(key: WatchKey) | Remove(key: WatchKey)

  /** Whether the card starts out as watched: the current address, when
      there is one, is among the auction's watchers. */
  function InitiallyWatched(watchedBy: seq<string>, address: Option<string>): (w: bool)
    ensures w <==> exists k :: 0 <= k < |watchedBy| && address == Some(watchedBy[k])
  {
    address.Some? && address.value in watchedBy
  }

  datatype ToggleResult = ToggleResult(isWatched: bool, events: seq<StorageEvent>)

  /** The heart button: nothing happens while disconnected; otherwise the key
      is removed from or appended to storage and the flag flips. */
  function ToggleWatchlist(isConnected: bool, isWatched: bool, key: WatchKey): (r: ToggleResult)
    ensures !isConnected ==> r.events == [] && r.isWatched == isWatched
    ensures isConnected ==> r.isWatched == !isWatched && |r.events| == 1 && r.events[0].key == key
    ensures isConnected ==> (r.events[0].Remove? <==> isWatched)
  {
    if !isConnected then ToggleResult(isWatched, [])
    else if isWatched then ToggleResult(false, [Remove(key)])
    else ToggleResult(true, [Append(key)])
  }

  /** Two toggles while connected restore the flag, and the two storage
      events undo each other. */
  lemma ToggleTwiceRestores(isWatched: bool, key: WatchKey)
    ensures var first := ToggleWatchlist(true, isWatched, key);
            var second := ToggleWatchlist(true, first.isWatched, key);
            && second.isWatched == isWatched
            && first.events + second.events ==
                 (if isWatched then [Remove(key), Append(key)] else [Append(key), Remove(key)])
  {
  }

  /** The watched keys after a run of storage events. */
  function StoreAfter(store: set<WatchKey>, events: seq<StorageEvent>): set<WatchKey>
    decreases |events|
  {
    if events == [] then store
    else
      var next := match events[0]
        case Append(k) => store + {k}
        case Remove(k) => store - {k};
      StoreAfter(next, events[1..])
  }

  /** A toggle keeps the card's flag in step with storage and leaves every
      other auction's entry alone. */
  lemma ToggleKeepsStoreInStep(isConnected: bool, isWatched: bool, key: WatchKey,
                               store: set<WatchKey>, other: WatchKey)
    requires isWatched <==> key in store
    requires other != key
    ensures var r := ToggleWatchlist(isConnected, isWatched, key);
            && (r.isWatched <==> key in StoreAfter(store, r.events))
            && (other in StoreAfter(store, r.events) <==> other in store)
  {
    var r := ToggleWatchlist(isConnected, isWatched, key);
    if isConnected {
      assert r.events[1..] == [];
    }
  }

  // ---------------------------------------------------------------------------
  // Creator abbreviation

  function Clamp(i: int, len: nat): (c: nat)
    ensures c <= len
    ensures 0 <= i <= len ==> c == i
  {
    if i < 0 then 0 else if i > len then len else i
  }

  /** JavaScript `s.substring(i, j)`: both ends are clamped into the string
      and swapped when given in the wrong order. */
  function Substring(s: string, i: int, j: int): (t: string)
    ensures 0 <= i <= j <= |s| ==> t == s[i..j]
    ensures 0 <= j <= i <= |s| ==> t == s[j..i]
    ensures |t| <= |s|
  {
    var a := Clamp(i, |s|);
    var b := Clamp(j, |s|);
    if a <= b then s[a..b] else s[b..a]
  }

  /** The "Created by" text: the first six characters, an ellipsis, and
      everything from index 38 on. */
  function AbbreviateCreator(creator: string): (t: string)
    ensures |creator| >= 38 ==> t == creator[..6] + "..." + creator[38..]
    ensures |creator| <= 6 ==> t == creator + "..."
    ensures 6 < |creator| < 38 ==> t == creator[..6] + "..."
    ensures |creator| == 42 ==> |t| == 13
  {
    Substring(creator, 0, 6) + "..." + Substring(creator, 38, |creator|)
  }

  /** The abbreviation keeps the address's head and tail and drops only its
      middle. */
  lemma AbbreviationShape(creator: string)
    ensures var t := AbbreviateCreator(creator);
            var head := Clamp(6, |creator|);
            var tail := |creator| - Clamp(38, |creator|);
            && |t| == head + 3 + tail
            && t[..head] == creator[..head]
            && t[head..head + 3] == "..."
            && t[head + 3..] == creator[|creator| - tail..]
  {
  }

  // ---------------------------------------------------------------------------
  // Time caption

  datatype Caption = Caption(verb: string, time: int)

  /** The clock caption: when an upcoming auction starts, when an active one
      ends, and otherwise when it ended. */
  function TimeCaption(status: string, startTime: int, endTime: int): (c: Caption)
    ensures c.verb == "Starts" <==> status == "upcoming"
    ensures c.verb == "Starts" ==> c.time == startTime
    ensures c.verb != "Starts" ==> c.time == endTime
    ensures c.verb == "Ends" <==> status == "active"
    ensures c.verb == "Ended" <==> status != "upcoming" && status != "active"
  {
    if status == "upcoming" then Caption("Starts", startTime)
    else if status == "active" then Caption("Ends", endTime)
    else Caption("Ended", endTime)
  }

  /** For the three statuses an auction takes, the caption and the badge
      tell the same story. */
  lemma CaptionAgreesWithBadge(status: string, startTime: int, endTime: int)
    requires status in ["upcoming", "active", "ended"]
    ensures var c := TimeCaption(status, startTime, endTime);
            var b := StatusBadge(status);
            && (b.text == "Upcoming" <==> c.verb == "Starts")
            && (b.text == "Active" <==> c.verb == "Ends")
            && (b.text == "Ended" <==> c.verb == "Ended")
  {
  }
}
