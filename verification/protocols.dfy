/** The auction protocols the front end distinguishes by their string tag. */
module Protocols {

  datatype Protocol =
    | Linear
    | Exponential
    | Logarithmic
    | Vickrey
    | OtherProtocol(tag: string)  // any tag the bid form does not single out

  /** The tags the front end compares `auction.protocol` against. */
  const KnownTags: seq<string> := ["Linear", "Exponential", "Logarithmic", "Vickrey"]

  predicate WellFormed(p: Protocol)
  {
    p.OtherProtocol? ==> p.tag !in KnownTags
  }

  /** A protocol as the front end can hold it: a known tag always reads as
      its own variant, never as `OtherProtocol`. */
  type WellFormedProtocol = p: Protocol | WellFormed(p) witness Linear

  function Tag(p: Protocol): string
  {
    match p
    case Linear => "Linear"
    case Exponential => "Exponential"
    case Logarithmic => "Logarithmic"
    case Vickrey => "Vickrey"
    case OtherProtocol(t) => t
  }

  /** Reads a protocol tag; every string is accepted and no information is lost. */
  function Parse(tag: string): (p: Protocol)
    ensures WellFormed(p)
    ensures Tag(p) == tag
  {
    if tag == "Linear" then Linear
    else if tag == "Exponential" then Exponential
    else if tag == "Logarithmic" then Logarithmic
    else if tag == "Vickrey" then Vickrey
    else OtherProtocol(tag)
  }

  /** Parsing inverts tagging on well-formed protocols. */
  lemma ParseTag(p: Protocol)
    requires WellFormed(p)
    ensures Parse(Tag(p)) == p
  {
  }

  /** Linear, Exponential and Logarithmic auctions are reverse Dutch (descending price). */
  predicate IsReverseDutch(p: Protocol)
  {
    p.Linear? || p.Exponential? || p.Logarithmic?
  }

  /** Vickrey auctions are sealed-bid (commit, then reveal). */
  predicate IsVickrey(p: Protocol)
  {
    p.Vickrey?
  }

  /** The classification of a tag is the membership test the bid form performs,
      and no protocol is both reverse Dutch and sealed-bid. */
  lemma ClassifyTag(tag: string)
    ensures IsReverseDutch(Parse(tag)) <==> tag in ["Linear", "Exponential", "Logarithmic"]
    ensures IsVickrey(Parse(tag)) <==> tag == "Vickrey"
    ensures !(IsReverseDutch(Parse(tag)) && IsVickrey(Parse(tag)))
  {
  }
}
