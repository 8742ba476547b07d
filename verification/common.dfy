/** Small value wrappers shared by the auction modules, plus the JavaScript
    truthiness rules the front end relies on when it writes `x || d`. */
module Common {

  /** A value that may be absent (`undefined` in the front end). */
  datatype Option<T> = None | Some(value: T)

  /** A computation that either yields a value or fails with an error. */
  datatype Result<T, E> = Ok(value: T) | Err(error: E)

  /** `x || d` for an optional bigint: `undefined` and `0n` are both falsy. */
  function OrDefault(x: Option<nat>, d: nat): (r: nat)
    ensures x.Some? && x.value != 0 ==> r == x.value
    ensures x.None? || x.value == 0 ==> r == d
  {
    if x.Some? && x.value != 0 then x.value else d
  }

  /** Truthiness of an optional string: `undefined` and `""` are falsy. */
  predicate TruthyText(x: Option<string>)
  {
    x.Some? && x.value != ""
  }

  /** `x || d` for an optional string. */
  function TextOr(x: Option<string>, d: string): (r: string)
    ensures TruthyText(x) ==> r == x.value
    ensures !TruthyText(x) ==> r == d
  {
    if TruthyText(x) then x.value else d
  }

  /** The positions of `s` whose element `keep` accepts, in increasing
      order: what `filter` keeps, by index. */
  function Positions<T>(s: seq<T>, keep: T -> bool): (ix: seq<nat>)
    ensures |ix| <= |s|
  {
    PositionsFrom(s, keep, 0)
  }

  /** The accepted positions at or after `i`. */
  function PositionsFrom<T>(s: seq<T>, keep: T -> bool, i: nat): (ix: seq<nat>)
    requires i <= |s|
    ensures |ix| <= |s| - i
    decreases |s| - i
  {
    if i == |s| then []
    else (if keep(s[i]) then [i] else []) + PositionsFrom(s, keep, i + 1)
  }

  lemma {:induction false} PositionsFromSound<T>(s: seq<T>, keep: T -> bool, i: nat)
    requires i <= |s|
    ensures forall k :: 0 <= k < |PositionsFrom(s, keep, i)| ==>
              i <= PositionsFrom(s, keep, i)[k] < |s| && keep(s[PositionsFrom(s, keep, i)[k]])
    ensures forall k, l :: 0 <= k < l < |PositionsFrom(s, keep, i)| ==>
              PositionsFrom(s, keep, i)[k] < PositionsFrom(s, keep, i)[l]
    decreases |s| - i
  {
    if i < |s| {
      PositionsFromSound(s, keep, i + 1);
      var rest := PositionsFrom(s, keep, i + 1);
      var ix := PositionsFrom(s, keep, i);
      if keep(s[i]) {
        assert ix == [i] + rest;
        forall k | 0 <= k < |ix|
          ensures i <= ix[k] < |s| && keep(s[ix[k]])
        {
          if k > 0 {
            assert ix[k] == rest[k - 1];
          }
        }
        forall k, l | 0 <= k < l < |ix|
          ensures ix[k] < ix[l]
        {
          assert ix[l] == rest[l - 1];
          if k > 0 {
            assert ix[k] == rest[k - 1];
          }
        }
      } else {
        assert ix == rest;
      }
    }
  }

  /** Every position is an accepted index of `s`, and the positions come in
      increasing order. */
  lemma PositionsSound<T>(s: seq<T>, keep: T -> bool)
    ensures forall k :: 0 <= k < |Positions(s, keep)| ==>
              Positions(s, keep)[k] < |s| && keep(s[Positions(s, keep)[k]])
    ensures forall k, l :: 0 <= k < l < |Positions(s, keep)| ==>
              Positions(s, keep)[k] < Positions(s, keep)[l]
  {
    PositionsFromSound(s, keep, 0);
    assert Positions(s, keep) == PositionsFrom(s, keep, 0);
  }

  lemma {:induction false} PositionsFromComplete<T>(s: seq<T>, keep: T -> bool, i: nat, p: nat)
    requires i <= p < |s| && keep(s[p])
    ensures p in PositionsFrom(s, keep, i)
    decreases p - i
  {
    if i < p {
      PositionsFromComplete(s, keep, i + 1, p);
    }
  }

  /** No accepted position is missed. */
  lemma PositionsComplete<T>(s: seq<T>, keep: T -> bool, p: nat)
    requires p < |s| && keep(s[p])
    ensures p in Positions(s, keep)
  {
    PositionsFromComplete(s, keep, 0, p);
  }
}
