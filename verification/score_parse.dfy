/**
 Score extraction from a free-text model reply: the regular-expression
 search `Match Percentage:\s*(\d+)` followed by `int(...)` of the captured
 digits, with 0 when the search finds nothing.
 */
module ScoreParse {
  import opened Wrappers
  import opened Decimal

  const Label: string := "Match Percentage:"

  /** The characters `\s` matches in a Python `str` pattern (those for which
      `str.isspace` holds). */
  predicate IsSpace(c: char) {
    || c == ' ' || ('\t' <= c <= '\r') || ('\U{1C}' <= c <= '\U{1F}')
    || c == '\U{85}' || c == '\U{A0}' || c == '\U{1680}'
    || ('\U{2000}' <= c <= '\U{200A}') || c == '\U{2028}' || c == '\U{2029}'
    || c == '\U{202F}' || c == '\U{205F}' || c == '\U{3000}'
  }

  predicate LabelAt(s: string, i: nat) {
    i + |Label| <= |s| && s[i..i + |Label|] == Label
  }

  /** The greedy `\s*`: the first position at or after `i` that is not
      whitespace. */
  function SkipSpaces(s: string, i: nat): (p: nat)
    requires i <= |s|
    ensures i <= p <= |s|
    ensures forall k | i <= k < p :: IsSpace(s[k])
    ensures p == |s| || !IsSpace(s[p])
    decreases |s| - i
  {
    if i < |s| && IsSpace(s[i]) then SkipSpaces(s, i + 1) else i
  }

  /** The greedy `\d+`: the first position at or after `p` that is not a
      digit. */
  function DigitsEnd(s: string, p: nat): (e: nat)
    requires p <= |s|
    ensures p <= e <= |s|
    ensures forall k | p <= k < e :: IsDigit(s[k])
    ensures e == |s| || !IsDigit(s[e])
    decreases |s| - p
  {
    if p < |s| && IsDigit(s[p]) then DigitsEnd(s, p + 1) else p
  }

  /** The pattern matches at position `i`: the label, then optional
      whitespace, then at least one digit. */
  predicate Qualifies(s: string, i: nat) {
    LabelAt(s, i) &&
    var p := SkipSpaces(s, i + |Label|);
    p < |s| && IsDigit(s[p])
  }

  /** The captured group of a match at `i`: the maximal digit run after the
      label and the whitespace. */
  function Captured(s: string, i: nat): (ds: string)
    requires Qualifies(s, i)
    ensures |ds| > 0 && AllDigits(ds)
    ensures var p := SkipSpaces(s, i + |Label|);
            && p + |ds| <= |s| && s[p..p + |ds|] == ds
            && (p + |ds| == |s| || !IsDigit(s[p + |ds|]))
  {
    var p := SkipSpaces(s, i + |Label|);
    s[p..DigitsEnd(s, p)]
  }

  /** `re.search` from position `from`: the leftmost position where the
      pattern matches, if any. */
  function Search(s: string, from: nat): (r: Option<nat>)
    ensures r.Some? ==> from <= r.value < |s| && Qualifies(s, r.value)
    ensures r.Some? ==> forall j | from <= j < r.value :: !Qualifies(s, j)
    ensures r.None? ==> forall j | from <= j < |s| :: !Qualifies(s, j)
    decreases |s| - from
  {
    if from >= |s| then None
    else if Qualifies(s, from) then Some(from)
    else
      var rest := Search(s, from + 1);
      assert forall j | from <= j < from + 1 :: !Qualifies(s, j);
      rest
  }

  /** The score read from a reply: the captured number of the leftmost match,
      or 0 when there is none. No upper bound is imposed. */
  function ParseScore(reply: string): (r: nat)
    ensures (forall i | 0 <= i < |reply| :: !Qualifies(reply, i)) ==> r == 0
    ensures forall i | 0 <= i < |reply| && Qualifies(reply, i) && (forall j | 0 <= j < i :: !Qualifies(reply, j)) ::
              r == Value(Captured(reply, i))
  {
    match Search(reply, 0)
    case None => 0
    case Some(i) => Value(Captured(reply, i))
  }

  /** A reply in the requested shape `Match Percentage: XX%...` yields XX. */
  lemma ParseRequestedShape(x: nat, rest: string)
    ensures ParseScore(Label + " " + ToDecimal(x) + "%" + rest) == x
  {
    var ds := ToDecimal(x);
    var s := Label + " " + ds + "%" + rest;
    var p := |Label| + 1;
    var e := p + |ds|;
    assert s[..|Label|] == Label;
    assert s[|Label|] == ' ';
    assert s[p..e] == ds;
    assert s[e] == '%';
    assert IsDigit(s[p]);
    assert SkipSpaces(s, p) == p;
    assert SkipSpaces(s, |Label|) == p;
    assert Qualifies(s, 0);
    assert DigitsEnd(s, p) == e;
    assert Captured(s, 0) == ds;
    ValueOfToDecimal(x);
  }

  /** The worked example of the scoring format. */
  lemma ParseExample()
    ensures ParseScore("Match Percentage: 87%\nExplanation: good fit") == 87
  {
    assert ToDecimal(87) == "87";
    assert "Match Percentage: 87%\nExplanation: good fit" == Label + " " + ToDecimal(87) + "%" + "\nExplanation: good fit";
    ParseRequestedShape(87, "\nExplanation: good fit");
  }

  /** A reply without the label scores 0. */
  lemma {:induction false} NoLabelScoresZero(reply: string)
    requires forall i | 0 <= i < |reply| :: !LabelAt(reply, i)
    ensures ParseScore(reply) == 0
  {
  }
}
