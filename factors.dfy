/**
 * The selection of adjustment factors in the upload handler: for each of
 * "R", "G", "B" the parsed form value is kept when it is present and differs
 * from 1.0.
 */
module Factors {
  import opened Wrappers
  import opened Image
  import opened Intensity

  /** A parsed factor asks for a change when it is present and is not the neutral 1.0. */
  predicate Active(parsed: Option<real>)
  {
    parsed.Some? && parsed.value != 1.0
  }

  /** The dictionary holds `key` exactly when `parsed` is active, and then holds its value. */
  predicate Entry(factors: map<string, real>, key: string, parsed: Option<real>)
  {
    (key in factors <==> Active(parsed)) && (key in factors ==> factors[key] == parsed.value)
  }

  /** `factors` is what the handler builds from the parsed values `r`, `g`, `b`. */
  predicate SelectedFrom(factors: map<string, real>, r: Option<real>, g: Option<real>, b: Option<real>)
  {
    factors.Keys <= {"R", "G", "B"} && Entry(factors, "R", r) && Entry(factors, "G", g) && Entry(factors, "B", b)
  }

  /** The parsed value for plane `c`. */
  function ParsedFor(c: nat, r: Option<real>, g: Option<real>, b: Option<real>): (parsed: Option<real>)
    requires c < Channels
  {
    [r, g, b][c]
  }

  /** The loop that fills `adjust_factors`, one colour at a time. */
  method SelectFactors(r: Option<real>, g: Option<real>, b: Option<real>) returns (factors: map<string, real>)
    ensures SelectedFrom(factors, r, g, b)
  {
    var parsed := [r, g, b];
    factors := map[];
    for c := 0 to Channels
      invariant factors.Keys <= {"R", "G", "B"}
      invariant forall d :: 0 <= d < Channels ==>
        Entry(factors, ChannelKey(d), if d < c then parsed[d] else None)
    {
      var factor := parsed[c];
      if factor.Some? && factor.value != 1.0 {
        factors := factors[ChannelKey(c) := factor.value];
      }
    }
    assert Entry(factors, ChannelKey(0), r) && Entry(factors, ChannelKey(1), g) && Entry(factors, ChannelKey(2), b);
  }

  /** The selection is a function of the parsed values: two dictionaries selected from them are equal. */
  lemma SelectionUnique(factors: map<string, real>, other: map<string, real>, r: Option<real>, g: Option<real>, b: Option<real>)
    requires SelectedFrom(factors, r, g, b) && SelectedFrom(other, r, g, b)
    ensures factors == other
  {
    assert factors.Keys == other.Keys;
  }

  /**
   * Leaving out a factor of exactly 1.0 changes nothing: adjusting with the
   * selected dictionary scales plane `c` by its parsed factor when one was
   * parsed and leaves it alone otherwise.
   */
  lemma UnitFactorsNeedNoEntry(v: Byte, c: nat, factors: map<string, real>, r: Option<real>, g: Option<real>, b: Option<real>)
    requires c < Channels
    requires SelectedFrom(factors, r, g, b)
    ensures AdjustedValue(v, c, factors) == match ParsedFor(c, r, g, b)
      case Some(f) => Scale(v, f)
      case None => v
  {
    ScaleByOne(v);
  }
}
