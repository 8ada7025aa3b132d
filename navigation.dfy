/**
 * The address-bar resolver `processUrl`: text typed into the URL bar or the
 * spotlight box becomes either a Google search or an address to load.
 */
module Navigation {
  import opened Wrappers
  import opened Text
  import UriEncoding

  const SearchPrefix: string := "https://www.google.com/search?q="

  predicate IsAlnum(c: char) {
    'a' <= c <= 'z' || 'A' <= c <= 'Z' || '0' <= c <= '9'
  }

  predicate IsLetter(c: char) {
    'a' <= c <= 'z' || 'A' <= c <= 'Z'
  }

  /** One label `[a-z0-9]+(-[a-z0-9]+)*` (the regex carries the `i` flag). */
  predicate IsLabel(s: string) {
    |s| > 0 && IsAlnum(s[0]) && IsAlnum(s[|s| - 1]) &&
    (forall i :: 0 <= i < |s| ==> IsAlnum(s[i]) || s[i] == '-') &&
    (forall i :: 0 < i < |s| && s[i] == '-' ==> s[i - 1] != '-')
  }

  /** The final part `[a-z]{2,}`. */
  predicate IsTopLevel(s: string) {
    |s| >= 2 && forall i :: 0 <= i < |s| ==> IsLetter(s[i])
  }

  /**
   * `/^([a-z0-9]+(-[a-z0-9]+)*\.)+[a-z]{2,}$/i.test(s)`, read left to right:
   * a label up to the first dot, then either the final part or another
   * domain-shaped remainder.
   */
  function DomainShaped(s: string): bool
    decreases |s|
  {
    match IndexOf(s, ".")
    case None => false
    case Some(k) => IsLabel(s[..k]) && (IsTopLevel(s[k + 1..]) || DomainShaped(s[k + 1..]))
  }

  /** `l1.l2. ... ln.` */
  function Dotted(labels: seq<string>): string {
    if labels == [] then "" else labels[0] + "." + Dotted(labels[1..])
  }

  /** The language of the domain regex, stated as the regex writes it. */
  ghost predicate MatchesDomainRegex(s: string) {
    exists labels: seq<string>, tld: string ::
      |labels| > 0 && (forall i :: 0 <= i < |labels| ==> IsLabel(labels[i])) &&
      IsTopLevel(tld) && s == Dotted(labels) + tld
  }

  lemma FirstDot(s: string, k: nat)
    requires k < |s| && s[k] == '.'
    requires forall j :: 0 <= j < k ==> s[j] != '.'
    ensures IndexOf(s, ".") == Some(k)
  {
    assert s[k..k + 1] == ".";
    forall j | 0 <= j < k ensures !OccursAt(s, ".", j) {
      assert s[j..j + 1][0] == s[j];
    }
    IndexOfIs(s, ".", k);
  }

  lemma InRegex(s: string, labels: seq<string>, tld: string)
    requires |labels| > 0 && forall i :: 0 <= i < |labels| ==> IsLabel(labels[i])
    requires IsTopLevel(tld) && s == Dotted(labels) + tld
    ensures MatchesDomainRegex(s)
  {
  }

  /** The labels and final part that a domain-shaped string splits into. */
  lemma {:induction false} DomainParts(s: string) returns (labels: seq<string>, tld: string)
    requires DomainShaped(s)
    ensures |labels| > 0 && forall i :: 0 <= i < |labels| ==> IsLabel(labels[i])
    ensures IsTopLevel(tld) && s == Dotted(labels) + tld
    decreases |s|
  {
    var k := IndexOf(s, ".").value;
    var head, rest := s[..k], s[k + 1..];
    assert IsLabel(head) && (IsTopLevel(rest) || DomainShaped(rest));
    assert s == (head + ".") + rest by {
      assert s[k..k + 1] == ".";
    }
    if IsTopLevel(rest) {
      labels, tld := [head], rest;
      assert Dotted(labels) == head + "." by {
        assert labels[1..] == [];
      }
    } else {
      var more, last := DomainParts(rest);
      labels, tld := [head] + more, last;
      PrependLabel(head, more, last);
    }
  }

  lemma PrependLabel(head: string, more: seq<string>, tld: string)
    requires IsLabel(head) && forall i :: 0 <= i < |more| ==> IsLabel(more[i])
    ensures var labels := [head] + more;
      (forall i :: 0 <= i < |labels| ==> IsLabel(labels[i])) &&
      Dotted(labels) + tld == (head + ".") + (Dotted(more) + tld)
  {
    var labels := [head] + more;
    assert labels[1..] == more;
    forall i | 0 <= i < |labels| ensures IsLabel(labels[i]) {
      if i > 0 {
        assert labels[i] == more[i - 1];
      }
    }
  }

  lemma DomainShapedMatches(s: string)
    requires DomainShaped(s)
    ensures MatchesDomainRegex(s)
  {
    var labels, tld := DomainParts(s);
    InRegex(s, labels, tld);
  }

  lemma LabelHasNoDot(l: string, j: int)
    requires IsLabel(l) && 0 <= j < |l|
    ensures l[j] != '.'
  {
  }

  lemma {:induction false} MatchesDomainShaped(labels: seq<string>, tld: string)
    requires |labels| > 0 && forall i :: 0 <= i < |labels| ==> IsLabel(labels[i])
    requires IsTopLevel(tld)
    ensures DomainShaped(Dotted(labels) + tld)
    decreases |labels|
  {
    var s := Dotted(labels) + tld;
    var head := labels[0];
    var rest := Dotted(labels[1..]) + tld;
    assert s == head + "." + rest;
    forall j | 0 <= j < |head| ensures s[j] != '.' {
      LabelHasNoDot(head, j);
    }
    FirstDot(s, |head|);
    assert s[..|head|] == head && s[|head| + 1..] == rest;
    if |labels| > 1 {
      MatchesDomainShaped(labels[1..], tld);
    }
  }

  /** The recursive reading of the regex accepts exactly the regex's language. */
  lemma DomainShapedIsRegex(s: string)
    ensures DomainShaped(s) <==> MatchesDomainRegex(s)
  {
    if DomainShaped(s) {
      DomainShapedMatches(s);
    }
    if MatchesDomainRegex(s) {
      var labels: seq<string>, tld: string :| |labels| > 0 &&
        (forall i :: 0 <= i < |labels| ==> IsLabel(labels[i])) &&
        IsTopLevel(tld) && s == Dotted(labels) + tld;
      MatchesDomainShaped(labels, tld);
    }
  }

  predicate HasKnownScheme(s: string) {
    StartsWith(s, "http://") || StartsWith(s, "https://") || StartsWith(s, "file://")
  }

  /** The test that sends space-free input to the address path. */
  predicate LooksLikeAddress(s: string) {
    DomainShaped(s) || StartsWith(s, "localhost") || Contains(s, "://")
  }

  /** The Google search for `q`. */
  function SearchUrl(q: string): (r: string)
    ensures StartsWith(r, "https://") && ' ' !in r
    ensures |r| >= |SearchPrefix| + |q|
  {
    var e := UriEncoding.Encode(q);
    SearchPrefixShape();
    assert (SearchPrefix + e)[..8] == SearchPrefix[..8];
    SearchPrefix + e
  }

  lemma SearchPrefixShape()
    ensures SearchPrefix[..8] == "https://" && ' ' !in SearchPrefix
  {
    forall i | 0 <= i < |SearchPrefix| ensures SearchPrefix[i] != ' ' {
    }
  }

  /** `processUrl(input)` */
  function ProcessUrl(input: string): (r: string)
    ensures HasKnownScheme(r)
    ensures ' ' !in r
    ensures r == SearchUrl(input) || r == input || r == "https://" + input
  {
    if ' ' in input then SearchUrl(input)
    else if LooksLikeAddress(input) then
      if !HasKnownScheme(input) then "https://" + input else input
    else SearchUrl(input)
  }

  /** Exactly the inputs with a space, or that do not look like an address, become a search. */
  lemma ProcessUrlSearches(input: string)
    ensures ProcessUrl(input) == SearchUrl(input) <==> (' ' in input || !LooksLikeAddress(input))
  {
    assert |SearchPrefix| == 32;
  }

  /** Space-free addresses keep a known scheme and otherwise get `https://` in front. */
  lemma ProcessUrlAddresses(input: string)
    requires ' ' !in input && LooksLikeAddress(input)
    ensures HasKnownScheme(input) ==> ProcessUrl(input) == input
    ensures !HasKnownScheme(input) ==> ProcessUrl(input) == "https://" + input
  {
  }

  lemma SchemeHasSeparator(s: string)
    requires HasKnownScheme(s)
    ensures Contains(s, "://")
  {
    var p := if StartsWith(s, "http://") then "http://"
             else if StartsWith(s, "https://") then "https://" else "file://";
    var at := if p == "https://" then 5 else 4;
    assert p[at..at + 3] == "://";
    assert OccursAt(p, "://", at);
    ContainsIff(p, "://");
    ContainsViaPrefix(s, p, "://");
  }

  /** An address that already has a scheme and no space comes back unchanged. */
  lemma ProcessUrlKeepsAddresses(s: string)
    requires HasKnownScheme(s) && ' ' !in s
    ensures ProcessUrl(s) == s
  {
    SchemeHasSeparator(s);
  }

  /** Resolving twice is resolving once. */
  lemma ProcessUrlIdempotent(input: string)
    ensures ProcessUrl(ProcessUrl(input)) == ProcessUrl(input)
  {
    ProcessUrlKeepsAddresses(ProcessUrl(input));
  }

  lemma LocalhostIsAddress(s: string)
    requires s == "localhost:8080"
    ensures ' ' !in s && LooksLikeAddress(s) && !HasKnownScheme(s)
  {
    assert StartsWith(s, "localhost");
    assert s[..7][0] == 'l' && s[..8][0] == 'l';
  }

  /** A port on localhost gets the secure scheme in front. */
  lemma ProcessUrlLocalhost(s: string)
    requires s == "localhost:8080"
    ensures ProcessUrl(s) == "https://" + s
  {
    LocalhostIsAddress(s);
    ProcessUrlAddresses(s);
  }

  lemma BareDomainIsAddress(s: string)
    requires s == "example.com"
    ensures ' ' !in s && LooksLikeAddress(s) && !HasKnownScheme(s)
  {
    FirstDot(s, 7);
    assert s[..7] == "example" && s[8..] == "com";
    assert IsLabel("example") && IsTopLevel("com");
    assert s[..7][0] == 'e' && s[..8][0] == 'e';
  }

  /** A bare domain is recognised by the regex and gets the secure scheme. */
  lemma ProcessUrlBareDomain(s: string)
    requires s == "example.com"
    ensures ProcessUrl(s) == "https://" + s
  {
    BareDomainIsAddress(s);
    ProcessUrlAddresses(s);
  }

  lemma IpAddressIsNotAddress(s: string)
    requires s == "192.168.0.1"
    ensures !LooksLikeAddress(s)
  {
    IpAddressIsNotDomain(s);
    assert s[..9][0] == '1';
    forall i: nat ensures !OccursAt(s, "://", i) {
      if i + 3 <= |s| {
        assert s[i..i + 3][1] == s[i + 1];
      }
    }
    ContainsIff(s, "://");
  }

  lemma IpAddressIsNotDomain(s: string)
    requires s == "192.168.0.1"
    ensures !DomainShaped(s)
  {
    FirstDot(s, 3);
    assert s[4..] == "168.0.1";
    FirstDot("168.0.1", 3);
    assert "168.0.1"[4..] == "0.1";
    FirstDot("0.1", 1);
    assert "0.1"[2..] == "1";
    assert !DomainShaped("1");
  }

  /** A dotted IP address fails the regex (its last part is not letters) and is searched for. */
  lemma ProcessUrlIpAddress(s: string)
    requires s == "192.168.0.1"
    ensures ProcessUrl(s) == SearchUrl(s)
  {
    IpAddressIsNotAddress(s);
    ProcessUrlSearches(s);
  }
}
