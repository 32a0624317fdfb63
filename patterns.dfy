/** The regular expressions that more than one component searches with. */
module Patterns {
  import opened Text
  import opened Wrappers

  /** `(19|20)\d{2}` matches the four characters of `s` starting at `i`. */
  predicate IsYearAt(s: string, i: int) {
    0 <= i && i + 4 <= |s|
    && ((s[i] == '1' && s[i + 1] == '9') || (s[i] == '2' && s[i + 1] == '0'))
    && IsDigit(s[i + 2]) && IsDigit(s[i + 3])
  }

  /** The leftmost position at or after `k` where `(19|20)\d{2}` matches. */
  function YearFrom(s: string, k: nat): (r: Option<nat>)
    ensures r.Some? ==> k <= r.value && IsYearAt(s, r.value) && forall j :: k <= j < r.value ==> !IsYearAt(s, j)
    ensures r.None? ==> forall j :: k <= j ==> !IsYearAt(s, j)
    decreases |s| - k
  {
    if k + 4 > |s| then None
    else if IsYearAt(s, k) then Some(k)
    else YearFrom(s, k + 1)
  }

  /** `re.search(r"(19|20)\d{2}", s).group(0)`, or `None` when there is no match. */
  function FirstYear(s: string): (r: Option<string>)
    ensures r.Some? <==> exists j :: IsYearAt(s, j)
    ensures r.Some? ==> exists j :: IsYearAt(s, j) && r.value == s[j..j + 4] && forall j' :: 0 <= j' < j ==> !IsYearAt(s, j')
  {
    match YearFrom(s, 0)
    case Some(j) => Some(s[j..j + 4])
    case None => None
  }

  /** A year string is its own first year. */
  lemma FirstYearOfYear(y: string)
    requires |y| == 4 && IsYearAt(y, 0)
    ensures FirstYear(y) == Some(y)
  {
    assert YearFrom(y, 0) == Some(0);
    assert y[0..4] == y;
  }
}
