/**
 * The tab caption set when a page stops loading: the page title with the
 * Google results suffix taken out, cut to 25 characters, and "New Tab" when
 * nothing is left.
 */
module TabTitle {
  import opened Text

  const SearchSuffix: string := " - Google Search"
  const MaxLength: nat := 25
  const Placeholder: string := "New Tab"

  /** `getTitle().replace(' - Google Search', '').substring(0, 25) || "New Tab"` */
  function Clean(pageTitle: string): (r: string)
    ensures 0 < |r| <= MaxLength
    ensures r == Placeholder || StartsWith(RemoveFirst(pageTitle, SearchSuffix), r)
    ensures var shown := RemoveFirst(pageTitle, SearchSuffix);
      (shown == [] ==> r == Placeholder) &&
      (shown != [] ==> StartsWith(shown, r) && |r| == if |shown| < MaxLength then |shown| else MaxLength)
  {
    var shown := Prefix(RemoveFirst(pageTitle, SearchSuffix), MaxLength);
    if shown == [] then Placeholder else shown
  }

  /** The suffix ends in the only 'h' it holds, so two copies never overlap. */
  lemma SuffixOnlyEndsInH(d: int)
    requires 0 <= d < |SearchSuffix| - 1
    ensures SearchSuffix[d] != 'h'
  {
  }

  /**
   * In `q + suffix + rest` with no suffix inside `q`, the first occurrence is
   * the one right after `q`, and only that one is removed.
   */
  lemma {:induction false} RemoveFirstSuffix(q: string, rest: string)
    requires !Contains(q, SearchSuffix)
    ensures RemoveFirst(q + SearchSuffix + rest, SearchSuffix) == q + rest
  {
    var s := q + SearchSuffix + rest;
    var n := |SearchSuffix|;
    assert s[|q|..|q| + n] == SearchSuffix;
    ContainsIff(q, SearchSuffix);
    forall j | 0 <= j < |q| ensures !OccursAt(s, SearchSuffix, j) {
      if j + n <= |q| {
        assert q[j..j + n] == s[j..j + n];
        assert !OccursAt(q, SearchSuffix, j);
      } else if j + n <= |s| {
        // the last character of an occurrence at j falls inside the suffix
        // after q, where no 'h' precedes the final one
        var d := j + n - 1 - |q|;
        SuffixOnlyEndsInH(d);
        assert s[j..j + n][n - 1] == s[j + n - 1] == SearchSuffix[d] != SearchSuffix[n - 1];
      }
    }
    IndexOfIs(s, SearchSuffix, |q|);
    assert s[..|q|] + s[|q| + n..] == q + rest;
  }

  /** A results page titled "q - Google Search" shows q, cut to 25 characters. */
  lemma CleanSearchTitle(q: string)
    requires !Contains(q, SearchSuffix)
    ensures Clean(q + SearchSuffix) == if q == [] then Placeholder else Prefix(q, MaxLength)
  {
    RemoveFirstSuffix(q, []);
    assert q + SearchSuffix + [] == q + SearchSuffix;
  }

  /** A title without the suffix is shown as it is, cut to 25 characters. */
  lemma CleanPlainTitle(t: string)
    requires !Contains(t, SearchSuffix) && t != []
    ensures Clean(t) == Prefix(t, MaxLength)
  {
  }
}
