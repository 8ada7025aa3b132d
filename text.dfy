/**
 * The few string operations the renderer relies on (`String.prototype.includes`,
 * `startsWith`, `indexOf`, `replace` with a string pattern and `substring`),
 * each defined over `string` = `seq<char>`.
 */
module Text {
  import opened Wrappers

  /** `s.startsWith(p)` */
  predicate StartsWith(s: string, p: string) {
    |p| <= |s| && s[..|p|] == p
  }

  /** `p` occurs in `s` starting at index `i`. */
  predicate OccursAt(s: string, p: string, i: nat) {
    i + |p| <= |s| && s[i..i + |p|] == p
  }

  /** `s.indexOf(p, from)`: the first index at or after `from` where `p` occurs. */
  function IndexOfFrom(s: string, p: string, from: nat): (r: Option<nat>)
    decreases |s| - from
    ensures r.Some? ==> from <= r.value && OccursAt(s, p, r.value)
    ensures r.Some? ==> forall j :: from <= j < r.value ==> !OccursAt(s, p, j)
    ensures r.None? ==> forall j :: from <= j ==> !OccursAt(s, p, j)
  {
    if from + |p| > |s| then None
    else if OccursAt(s, p, from) then Some(from)
    else IndexOfFrom(s, p, from + 1)
  }

  /** `s.indexOf(p)`, with -1 written as `None`. */
  function IndexOf(s: string, p: string): Option<nat> {
    IndexOfFrom(s, p, 0)
  }

  /** The first occurrence is the one `IndexOf` reports. */
  lemma IndexOfIs(s: string, p: string, k: nat)
    requires OccursAt(s, p, k)
    requires forall j :: 0 <= j < k ==> !OccursAt(s, p, j)
    ensures IndexOf(s, p) == Some(k)
  {
  }

  /** `s.includes(p)` */
  predicate Contains(s: string, p: string) {
    IndexOf(s, p).Some?
  }

  lemma ContainsIff(s: string, p: string)
    ensures Contains(s, p) <==> exists i: nat :: OccursAt(s, p, i)
  {
    if exists i: nat :: OccursAt(s, p, i) {
      var i: nat :| OccursAt(s, p, i);
      assert !(forall j :: 0 <= j ==> !OccursAt(s, p, j));
    }
  }

  /** A string that starts with `p` contains everything `p` contains. */
  lemma {:induction false} ContainsViaPrefix(s: string, p: string, q: string)
    requires StartsWith(s, p) && Contains(p, q)
    ensures Contains(s, q)
  {
    var i := IndexOf(p, q).value;
    assert s[i..i + |q|] == p[i..i + |q|];
    assert OccursAt(s, q, i);
    ContainsIff(s, q);
  }

  /** `s.replace(p, '')` for a string pattern: only the first occurrence is removed. */
  function RemoveFirst(s: string, p: string): (r: string)
    ensures IndexOf(s, p).None? ==> r == s
    ensures IndexOf(s, p).Some? ==>
      var i := IndexOf(s, p).value;
      |r| == |s| - |p| && r[..i] + p + r[i..] == s
  {
    match IndexOf(s, p)
    case None => s
    case Some(i) =>
      assert s == s[..i] + p + s[i + |p|..];
      s[..i] + s[i + |p|..]
  }

  /** `s.substring(0, n)` */
  function Prefix(s: string, n: nat): (r: string)
    ensures |r| <= n && StartsWith(s, r)
    ensures |s| <= n ==> r == s
    ensures n <= |s| ==> |r| == n
  {
    if |s| <= n then s else s[..n]
  }
}
