/**
 The percent rendering of scores in the result table (`f"{x}%"`) and its
 inverse, `rstrip('%')` followed by a numeric conversion.
 */
module Percent {
  import opened Wrappers
  import opened Decimal

  /** `f"{x}%"` for a non-negative integer score: the decimal digits of `x`
      without a superfluous leading zero, then `%`. */
  function Format(x: nat): (r: string)
    ensures |r| >= 2 && r[|r| - 1] == '%'
    ensures Canonical(r[..|r| - 1]) && Value(r[..|r| - 1]) == x
  {
    var ds := ToDecimal(x);
    ValueOfToDecimal(x);
    assert (ds + "%")[..|ds|] == ds;
    ds + "%"
  }

  /** `s.rstrip(c)`: removes every trailing occurrence of `c`. */
  function RStrip(s: string, c: char): (r: string)
    ensures r <= s
    ensures |r| == 0 || r[|r| - 1] != c
    ensures forall k | |r| <= k < |s| :: s[k] == c
  {
    if |s| > 0 && s[|s| - 1] == c then RStrip(s[..|s| - 1], c) else s
  }

  /** The numeric conversion of a stripped cell, restricted to decimal digit
      strings; anything else is a conversion failure. */
  function ParseNumber(s: string): (r: Option<nat>)
    ensures r.Some? <==> |s| > 0 && AllDigits(s)
    ensures Canonical(s) ==> r.Some? && ToDecimal(r.value) == s
  {
    if |s| > 0 && AllDigits(s) then
      if Canonical(s) then ToDecimalOfValue(s); Some(Value(s))
      else Some(Value(s))
    else None
  }

  /** Formatting then reparsing gives the score back. */
  lemma FormatRoundTrip(x: nat)
    ensures ParseNumber(RStrip(Format(x), '%')) == Some(x)
  {
    var ds := ToDecimal(x);
    assert Format(x)[..|Format(x)| - 1] == ds;
    assert RStrip(ds, '%') == ds;
    ValueOfToDecimal(x);
  }

  /** Distinct scores render as distinct cells. */
  lemma FormatInjective(x: nat, y: nat)
    requires Format(x) == Format(y)
    ensures x == y
  {
    FormatRoundTrip(x);
    FormatRoundTrip(y);
  }
}
