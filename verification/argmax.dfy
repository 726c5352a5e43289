/**
 The position of the first maximum of a non-empty sequence: what pandas'
 `Series.idxmax` returns for a column with a default row index.
 */
module ArgMax {

  /** `k` holds the maximum of `s` and no earlier element reaches it. */
  ghost predicate IsFirstMax(s: seq<int>, k: int) {
    && 0 <= k < |s|
    && (forall j | 0 <= j < |s| :: s[j] <= s[k])
    && (forall j | 0 <= j < k :: s[j] < s[k])
  }

  /** There is only one first maximum. */
  lemma FirstMaxUnique(s: seq<int>, k1: int, k2: int)
    requires IsFirstMax(s, k1) && IsFirstMax(s, k2)
    ensures k1 == k2
  {
    assert s[k1] <= s[k2] && s[k2] <= s[k1];
  }

  /** `idxmax`: the maximum of the rest is taken over only when it is
      strictly larger than the first element. */
  function FirstMax(s: seq<int>): (k: nat)
    requires |s| > 0
    ensures IsFirstMax(s, k)
  {
    if |s| == 1 then 0
    else
      var k := 1 + FirstMax(s[1..]);
      if s[k] > s[0] then k else 0
  }
}
