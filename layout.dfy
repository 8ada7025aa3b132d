/**
 * The sidebar's tree of tabs and folders, seen as an arena: every container
 * (the top-level tab list, or one folder's content area) holds an ordered list
 * of node ids, and a folder id names the container of its own children.
 *
 * This module defines document order -- the order in which
 * `document.querySelectorAll('.tab-item')` lists the tab buttons, a folder's
 * content coming right after its header -- and proves how the tree edits of
 * the workspace change it.
 */
module Layout {

  type Id = string

  /** `tabList`, or the content area of the folder with the given id. */
  datatype Container = Root | Content(folder: Id)

  /** What document order depends on: the child lists, and which ids are tabs. */
  datatype Shape = Shape(children: map<Container, seq<Id>>, tabs: set<Id>)

  /**
   * Proof-only ranks witnessing that folders do not nest in a cycle: a
   * folder's rank is below the rank of every folder inside it, and every
   * rank is below `bound`.
   */
  datatype Ranking = Ranking(rank: map<Id, nat>, bound: nat)

  predicate IsFolder(sh: Shape, x: Id) {
    x !in sh.tabs && Content(x) in sh.children
  }

  ghost predicate Ranked(sh: Shape, rk: Ranking) {
    Root in sh.children &&
    (forall f :: IsFolder(sh, f) ==> f in rk.rank && rk.rank[f] < rk.bound) &&
    (forall f, i ::
       (IsFolder(sh, f) && 0 <= i < |sh.children[Content(f)]| &&
        IsFolder(sh, sh.children[Content(f)][i])) ==>
       rk.rank[f] < rk.rank[sh.children[Content(f)][i]])
  }

  /** `x` appears in no child list. */
  ghost predicate Absent(sh: Shape, x: Id) {
    forall c, i :: c in sh.children && 0 <= i < |sh.children[c]| ==> sh.children[c][i] != x
  }

  /** Every folder among `ids` has a measure below `m`. */
  ghost predicate Fits(sh: Shape, rk: Ranking, ids: seq<Id>, m: nat)
    requires Ranked(sh, rk)
  {
    forall i :: 0 <= i < |ids| && IsFolder(sh, ids[i]) ==> rk.bound - rk.rank[ids[i]] < m
  }

  ghost function Measure(sh: Shape, rk: Ranking, c: Container): nat
    requires Ranked(sh, rk)
    requires c == Root || IsFolder(sh, c.folder)
  {
    if c == Root then rk.bound + 1 else rk.bound - rk.rank[c.folder]
  }

  /** The tabs of the forest `ids` in document order. */
  function Flatten(sh: Shape, ghost rk: Ranking, ids: seq<Id>, ghost m: nat): (r: seq<Id>)
    requires Ranked(sh, rk) && Fits(sh, rk, ids, m)
    decreases m, |ids|
  {
    if ids == [] then [] else Node(sh, rk, ids[0], m) + Flatten(sh, rk, ids[1..], m)
  }

  /** The tabs of one node: a tab itself, or everything inside a folder. */
  function Node(sh: Shape, ghost rk: Ranking, x: Id, ghost m: nat): (r: seq<Id>)
    requires Ranked(sh, rk) && Fits(sh, rk, [x], m)
    decreases m, 0
  {
    if x in sh.tabs then [x]
    else if Content(x) in sh.children then
      assert [x][0] == x;
      Order(sh, rk, Content(x))
    else []
  }

  /** The tabs inside container `c` in document order. */
  function Order(sh: Shape, ghost rk: Ranking, c: Container): (r: seq<Id>)
    requires Ranked(sh, rk)
    requires c == Root || IsFolder(sh, c.folder)
    decreases Measure(sh, rk, c), |sh.children[c]| + 1
  {
    Flatten(sh, rk, sh.children[c], Measure(sh, rk, c))
  }

  /** `s` without the elements of `t`. */
  function Filter(s: seq<Id>, t: set<Id>): (r: seq<Id>)
    ensures forall i :: 0 <= i < |r| ==> r[i] in s && r[i] !in t
  {
    if s == [] then []
    else (if s[0] in t then [] else [s[0]]) + Filter(s[1..], t)
  }

  lemma {:induction false} FilterAppend(a: seq<Id>, b: seq<Id>, t: set<Id>)
    ensures Filter(a + b, t) == Filter(a, t) + Filter(b, t)
  {
    if a != [] {
      assert (a + b)[1..] == a[1..] + b;
      FilterAppend(a[1..], b, t);
    } else {
      assert a + b == b;
    }
  }

  lemma {:induction false} FilterNothing(s: seq<Id>)
    ensures Filter(s, {}) == s
  {
    if s != [] {
      FilterNothing(s[1..]);
    }
  }

  lemma {:induction false} FlattenAppend(sh: Shape, rk: Ranking, a: seq<Id>, b: seq<Id>, m: nat)
    requires Ranked(sh, rk) && Fits(sh, rk, a + b, m)
    ensures Fits(sh, rk, a, m) && Fits(sh, rk, b, m)
    ensures Flatten(sh, rk, a + b, m) == Flatten(sh, rk, a, m) + Flatten(sh, rk, b, m)
    decreases |a|
  {
    FitsSplit(sh, rk, a, b, m);
    if a != [] {
      assert (a + b)[0] == a[0] && (a + b)[1..] == a[1..] + b;
      FitsSplit(sh, rk, [a[0]], a[1..], m);
      FlattenAppend(sh, rk, a[1..], b, m);
    } else {
      assert a + b == b;
    }
  }

  lemma FitsSplit(sh: Shape, rk: Ranking, a: seq<Id>, b: seq<Id>, m: nat)
    requires Ranked(sh, rk) && Fits(sh, rk, a + b, m)
    ensures Fits(sh, rk, a, m) && Fits(sh, rk, b, m)
  {
    forall i | 0 <= i < |a| ensures a[i] == (a + b)[i] {
    }
    forall i | 0 <= i < |b| ensures b[i] == (a + b)[|a| + i] {
    }
  }

  /** How one list element contributes before and after a change. */
  ghost predicate Matches(sh: Shape, rk: Ranking, sh': Shape, r: int, dead: set<Id>, gone: set<Id>, x: Id)
    requires Ranked(sh, rk)
  {
    if x in sh.tabs then
      (x in gone ==> x !in sh'.tabs && Content(x) !in sh'.children) &&
      (x !in gone ==> x in sh'.tabs)
    else if Content(x) in sh.children then
      IsFolder(sh', x) && x !in dead && rk.rank[x] > r
    else
      x !in sh'.tabs && Content(x) !in sh'.children
  }

  /**
   * Every folder ranked above `r` and not `dead` is still a folder and either
   * keeps its child list (whose elements match) or, when it is one of the
   * `edited` folders, shows the old order less the `gone` tabs.
   */
  ghost predicate Agrees(sh: Shape, rk: Ranking, sh': Shape, rk': Ranking, r: int,
                         edited: set<Id>, dead: set<Id>, gone: set<Id>)
    requires Ranked(sh, rk) && Ranked(sh', rk')
  {
    forall h :: IsFolder(sh, h) && h !in dead && rk.rank[h] > r ==>
      IsFolder(sh', h) &&
      (h in edited ==> Order(sh', rk', Content(h)) == Filter(Order(sh, rk, Content(h)), gone)) &&
      (h !in edited ==>
         sh'.children[Content(h)] == sh.children[Content(h)] &&
         forall i :: 0 <= i < |sh.children[Content(h)]| ==>
           Matches(sh, rk, sh', r, dead, gone, sh.children[Content(h)][i]))
  }

  /** The frame lemma for document order: matching elements give the filtered order. */
  lemma {:induction false} FlattenFrame(sh: Shape, rk: Ranking, sh': Shape, rk': Ranking, r: int,
                                        edited: set<Id>, dead: set<Id>, gone: set<Id>,
                                        ids: seq<Id>, m: nat, m': nat)
    requires Ranked(sh, rk) && Ranked(sh', rk')
    requires Fits(sh, rk, ids, m) && Fits(sh', rk', ids, m')
    requires Agrees(sh, rk, sh', rk', r, edited, dead, gone)
    requires forall i :: 0 <= i < |ids| ==> Matches(sh, rk, sh', r, dead, gone, ids[i])
    ensures Flatten(sh', rk', ids, m') == Filter(Flatten(sh, rk, ids, m), gone)
    decreases m, |ids|
  {
    if ids != [] {
      NodeFrame(sh, rk, sh', rk', r, edited, dead, gone, ids[0], m, m');
      FlattenFrame(sh, rk, sh', rk', r, edited, dead, gone, ids[1..], m, m');
      FilterAppend(Node(sh, rk, ids[0], m), Flatten(sh, rk, ids[1..], m), gone);
    }
  }

  lemma {:induction false} NodeFrame(sh: Shape, rk: Ranking, sh': Shape, rk': Ranking, r: int,
                                     edited: set<Id>, dead: set<Id>, gone: set<Id>,
                                     x: Id, m: nat, m': nat)
    requires Ranked(sh, rk) && Ranked(sh', rk')
    requires Fits(sh, rk, [x], m) && Fits(sh', rk', [x], m')
    requires Agrees(sh, rk, sh', rk', r, edited, dead, gone)
    requires Matches(sh, rk, sh', r, dead, gone, x)
    ensures Node(sh', rk', x, m') == Filter(Node(sh, rk, x, m), gone)
    decreases m, 0
  {
    assert [x][0] == x;
    if x in sh.tabs {
      assert Filter([x], gone) == if x in gone then [] else [x];
    } else if Content(x) in sh.children {
      assert IsFolder(sh, x) && IsFolder(sh', x);
      if x !in edited {
        var kids := sh.children[Content(x)];
        FlattenFrame(sh, rk, sh', rk', r, edited, dead, gone, kids,
                     rk.bound - rk.rank[x], rk'.bound - rk'.rank[x]);
      }
    }
  }

  // ---------------------------------------------------------------------------
  // The three edits of a child list

  /** The child lists once a new, empty folder `g` is appended to `c`. */
  function Planted(children: map<Container, seq<Id>>, c: Container, g: Id): map<Container, seq<Id>>
    requires c in children
  {
    children[c := children[c] + [g]][Content(g) := []]
  }

  /** The child lists once the element at position `k` of `c` is removed (`element.remove()`). */
  function Unlisted(children: map<Container, seq<Id>>, c: Container, k: nat): map<Container, seq<Id>>
    requires c in children && k < |children[c]|
  {
    children[c := children[c][..k] + children[c][k + 1..]]
  }

  /** The child lists once folder `f`, at position `k` of `p`, has given way to its children. */
  function Dissolved(children: map<Container, seq<Id>>, f: Id, p: Container, k: nat): map<Container, seq<Id>>
    requires p in children && Content(f) in children && k < |children[p]|
  {
    var L := children[p];
    (children - {Content(f)})[p := L[..k] + children[Content(f)] + L[k + 1..]]
  }

  // ---------------------------------------------------------------------------
  // Appending a tab to the top-level list (`tabList.appendChild(tabButton)`)

  function WithTab(sh: Shape, t: Id): Shape
    requires Root in sh.children
  {
    Shape(sh.children[Root := sh.children[Root] + [t]], sh.tabs + {t})
  }

  /** A new tab appended to the top-level list comes last in document order. */
  lemma AppendTabOrder(sh: Shape, rk: Ranking, t: Id)
    requires Ranked(sh, rk)
    requires t !in sh.tabs && Content(t) !in sh.children && Absent(sh, t)
    ensures Ranked(WithTab(sh, t), rk)
    ensures Order(WithTab(sh, t), rk, Root) == Order(sh, rk, Root) + [t]
  {
    var sh' := WithTab(sh, t);
    var L := sh.children[Root];
    assert forall x :: IsFolder(sh', x) <==> IsFolder(sh, x);
    assert Ranked(sh', rk);
    forall x | x != t ensures Matches(sh, rk, sh', -1, {}, {}, x) {
    }
    assert Agrees(sh, rk, sh', rk, -1, {}, {}, {});
    FlattenAppend(sh', rk, L, [t], rk.bound + 1);
    FlattenFrame(sh, rk, sh', rk, -1, {}, {}, {}, L, rk.bound + 1, rk.bound + 1);
    FilterNothing(Flatten(sh, rk, L, rk.bound + 1));
    assert Flatten(sh', rk, [t], rk.bound + 1) == [t];
  }

  // ---------------------------------------------------------------------------
  // Appending an empty folder to a container (`createNewFolder(parentElement)`)

  function WithFolder(sh: Shape, g: Id, c: Container): Shape
    requires c in sh.children
  {
    Shape(Planted(sh.children, c, g), sh.tabs)
  }

  function RankFolder(rk: Ranking, g: Id, c: Container): Ranking
    requires c == Root || c.folder in rk.rank
  {
    var r := if c == Root then 0 else rk.rank[c.folder] + 1;
    Ranking(rk.rank[g := r], if rk.bound <= r then r + 1 else rk.bound)
  }

  lemma AppendFolderRanked(sh: Shape, rk: Ranking, g: Id, c: Container)
    requires Ranked(sh, rk) && (c == Root || IsFolder(sh, c.folder))
    requires g !in sh.tabs && Content(g) !in sh.children && Absent(sh, g)
    ensures Ranked(WithFolder(sh, g, c), RankFolder(rk, g, c))
  {
    var sh', rk' := WithFolder(sh, g, c), RankFolder(rk, g, c);
    assert forall x :: IsFolder(sh', x) <==> IsFolder(sh, x) || x == g;
    forall f, i | IsFolder(sh', f) && 0 <= i < |sh'.children[Content(f)]| &&
                  IsFolder(sh', sh'.children[Content(f)][i])
      ensures rk'.rank[f] < rk'.rank[sh'.children[Content(f)][i]]
    {
      var x := sh'.children[Content(f)][i];
      if Content(f) == c && i == |sh.children[c]| {
        assert x == g;
      } else {
        assert f != g;
        assert x == sh.children[Content(f)][i];
      }
    }
  }

  /** The lists that were already in `c` flatten as before once the folder is added. */
  lemma AppendFolderFrame(sh: Shape, rk: Ranking, g: Id, c: Container)
    requires Ranked(sh, rk) && (c == Root || IsFolder(sh, c.folder))
    requires g !in sh.tabs && Content(g) !in sh.children && Absent(sh, g)
    requires Ranked(WithFolder(sh, g, c), RankFolder(rk, g, c))
    ensures var sh', rk' := WithFolder(sh, g, c), RankFolder(rk, g, c);
      (c == Root || IsFolder(sh', c.folder)) &&
      Fits(sh', rk', sh.children[c], Measure(sh', rk', c)) &&
      Flatten(sh', rk', sh.children[c], Measure(sh', rk', c)) == Order(sh, rk, c)
  {
    var sh', rk' := WithFolder(sh, g, c), RankFolder(rk, g, c);
    var r := if c == Root then -1 else rk.rank[c.folder];
    var L := sh.children[c];
    var m, m' := Measure(sh, rk, c), Measure(sh', rk', c);
    FitsSplit(sh', rk', L, [g], m');
    forall x | x != g && (IsFolder(sh, x) ==> rk.rank[x] > r)
      ensures Matches(sh, rk, sh', r, {}, {}, x)
    {
    }
    assert Agrees(sh, rk, sh', rk', r, {}, {}, {});
    FlattenFrame(sh, rk, sh', rk', r, {}, {}, {}, L, m, m');
    FilterNothing(Flatten(sh, rk, L, m));
  }

  lemma AppendFolderHere(sh: Shape, rk: Ranking, g: Id, c: Container)
    requires Ranked(sh, rk) && (c == Root || IsFolder(sh, c.folder))
    requires g !in sh.tabs && Content(g) !in sh.children && Absent(sh, g)
    requires Ranked(WithFolder(sh, g, c), RankFolder(rk, g, c))
    ensures Order(WithFolder(sh, g, c), RankFolder(rk, g, c), c) == Order(sh, rk, c)
  {
    var sh', rk' := WithFolder(sh, g, c), RankFolder(rk, g, c);
    var L := sh.children[c];
    var m' := Measure(sh', rk', c);
    AppendFolderFrame(sh, rk, g, c);
    assert L + [g] == sh'.children[c];
    FlattenAppend(sh', rk', L, [g], m');
    FolderNode(sh', rk', g, m');
    assert sh'.children[Content(g)] == [];
  }

  /** A new folder appended inside folder `c` leaves the top level's order alone. */
  lemma AppendFolderNested(sh: Shape, rk: Ranking, g: Id, c: Container)
    requires Ranked(sh, rk) && c.Content? && IsFolder(sh, c.folder)
    requires g !in sh.tabs && Content(g) !in sh.children && Absent(sh, g)
    requires Ranked(WithFolder(sh, g, c), RankFolder(rk, g, c))
    requires Order(WithFolder(sh, g, c), RankFolder(rk, g, c), c) == Order(sh, rk, c)
    ensures Order(WithFolder(sh, g, c), RankFolder(rk, g, c), Root) == Order(sh, rk, Root)
  {
    var sh', rk' := WithFolder(sh, g, c), RankFolder(rk, g, c);
    var R := sh.children[Root];
    AppendFolderAgrees(sh, rk, g, c);
    FlattenFrame(sh, rk, sh', rk', -1, {c.folder}, {}, {}, R, rk.bound + 1, rk'.bound + 1);
    FilterNothing(Flatten(sh, rk, R, rk.bound + 1));
  }

  lemma AppendFolderAgrees(sh: Shape, rk: Ranking, g: Id, c: Container)
    requires Ranked(sh, rk) && c.Content? && IsFolder(sh, c.folder)
    requires g !in sh.tabs && Content(g) !in sh.children && Absent(sh, g)
    requires Ranked(WithFolder(sh, g, c), RankFolder(rk, g, c))
    requires Order(WithFolder(sh, g, c), RankFolder(rk, g, c), c) == Order(sh, rk, c)
    ensures var sh' := WithFolder(sh, g, c);
      sh'.children[Root] == sh.children[Root] &&
      Agrees(sh, rk, sh', RankFolder(rk, g, c), -1, {c.folder}, {}, {}) &&
      forall i :: 0 <= i < |sh.children[Root]| ==> Matches(sh, rk, sh', -1, {}, {}, sh.children[Root][i])
  {
    var sh' := WithFolder(sh, g, c);
    forall x | x != g ensures Matches(sh, rk, sh', -1, {}, {}, x) {
    }
    FilterNothing(Order(sh, rk, c));
  }

  /** A new (empty) folder adds no tab, wherever it is appended. */
  lemma AppendFolderOrder(sh: Shape, rk: Ranking, g: Id, c: Container)
    requires Ranked(sh, rk) && (c == Root || IsFolder(sh, c.folder))
    requires g !in sh.tabs && Content(g) !in sh.children && Absent(sh, g)
    ensures Ranked(WithFolder(sh, g, c), RankFolder(rk, g, c))
    ensures Order(WithFolder(sh, g, c), RankFolder(rk, g, c), Root) == Order(sh, rk, Root)
  {
    AppendFolderRanked(sh, rk, g, c);
    AppendFolderHere(sh, rk, g, c);
    if c != Root {
      AppendFolderNested(sh, rk, g, c);
    }
  }

  // ---------------------------------------------------------------------------
  // Removing a tab from its container (`tabButton.remove()`)

  function WithoutTab(sh: Shape, t: Id, c: Container, k: nat): Shape
    requires c in sh.children && k < |sh.children[c]|
  {
    Shape(Unlisted(sh.children, c, k), sh.tabs - {t})
  }

  lemma RemoveTabRanked(sh: Shape, rk: Ranking, t: Id, c: Container, k: nat)
    requires Ranked(sh, rk) && (c == Root || IsFolder(sh, c.folder))
    requires t in sh.tabs && Content(t) !in sh.children
    requires k < |sh.children[c]| && sh.children[c][k] == t
    ensures Ranked(WithoutTab(sh, t, c, k), rk)
  {
    var sh' := WithoutTab(sh, t, c, k);
    assert forall x :: IsFolder(sh', x) <==> IsFolder(sh, x);
    forall f, i | IsFolder(sh', f) && 0 <= i < |sh'.children[Content(f)]| &&
                  IsFolder(sh', sh'.children[Content(f)][i])
      ensures rk.rank[f] < rk.rank[sh'.children[Content(f)][i]]
    {
      if Content(f) == c {
        var j := if i < k then i else i + 1;
        assert sh'.children[Content(f)][i] == sh.children[c][j];
      }
    }
  }

  lemma RemoveTabAgrees(sh: Shape, rk: Ranking, t: Id, c: Container, k: nat, r: int)
    requires Ranked(sh, rk) && (c == Root || IsFolder(sh, c.folder))
    requires t in sh.tabs && Content(t) !in sh.children
    requires k < |sh.children[c]| && sh.children[c][k] == t
    requires Ranked(WithoutTab(sh, t, c, k), rk)
    requires r == if c == Root then -1 else rk.rank[c.folder]
    ensures Agrees(sh, rk, WithoutTab(sh, t, c, k), rk, r, {}, {}, {t})
    ensures forall x :: (IsFolder(sh, x) ==> rk.rank[x] > r) ==>
      Matches(sh, rk, WithoutTab(sh, t, c, k), r, {}, {t}, x)
  {
  }

  lemma FilterDrops(a: seq<Id>, t: Id, b: seq<Id>)
    ensures Filter(a + ([t] + b), {t}) == Filter(a, {t}) + Filter(b, {t})
  {
    FilterAppend(a, [t] + b, {t});
    assert ([t] + b)[0] == t && ([t] + b)[1..] == b;
  }

  /** Container `c` lists the tabs before position `k`, then those of the node at `k`, then the rest. */
  lemma OrderAround(sh: Shape, rk: Ranking, c: Container, k: nat)
    requires Ranked(sh, rk) && (c == Root || IsFolder(sh, c.folder))
    requires k < |sh.children[c]|
    ensures var L, m := sh.children[c], Measure(sh, rk, c);
      Fits(sh, rk, L[..k], m) && Fits(sh, rk, [L[k]], m) && Fits(sh, rk, L[k + 1..], m) &&
      Order(sh, rk, c) == Flatten(sh, rk, L[..k], m) + (Flatten(sh, rk, [L[k]], m) + Flatten(sh, rk, L[k + 1..], m))
  {
    var L := sh.children[c];
    var A, B := L[..k], L[k + 1..];
    var m := Measure(sh, rk, c);
    assert L == A + ([L[k]] + B);
    FlattenAppend(sh, rk, A, [L[k]] + B, m);
    FlattenAppend(sh, rk, [L[k]], B, m);
  }

  /** A tab stands for itself. */
  lemma TabNode(sh: Shape, rk: Ranking, t: Id, m: nat)
    requires Ranked(sh, rk) && Fits(sh, rk, [t], m) && t in sh.tabs
    ensures Flatten(sh, rk, [t], m) == [t]
  {
    assert [t][0] == t && [t][1..] == [];
  }

  /** A folder stands for the tabs of its content area. */
  lemma FolderNode(sh: Shape, rk: Ranking, f: Id, m: nat)
    requires Ranked(sh, rk) && Fits(sh, rk, [f], m) && IsFolder(sh, f)
    ensures Fits(sh, rk, sh.children[Content(f)], rk.bound - rk.rank[f])
    ensures Flatten(sh, rk, [f], m) == Flatten(sh, rk, sh.children[Content(f)], rk.bound - rk.rank[f])
  {
    assert [f][0] == f && [f][1..] == [];
    assert Flatten(sh, rk, [f], m) == Node(sh, rk, f, m) + Flatten(sh, rk, [], m);
    assert Node(sh, rk, f, m) == Order(sh, rk, Content(f));
  }

  /** After the removal, container `c` lists the tabs before position `k`, then the rest. */
  lemma RemoveTabAfter(sh: Shape, rk: Ranking, t: Id, c: Container, k: nat)
    requires Ranked(sh, rk) && (c == Root || IsFolder(sh, c.folder))
    requires Content(t) !in sh.children
    requires k < |sh.children[c]| && sh.children[c][k] == t
    requires Ranked(WithoutTab(sh, t, c, k), rk)
    ensures var sh', L, m := WithoutTab(sh, t, c, k), sh.children[c], Measure(sh, rk, c);
      (c == Root || IsFolder(sh', c.folder)) &&
      Fits(sh', rk, L[..k], m) && Fits(sh', rk, L[k + 1..], m) &&
      Order(sh', rk, c) == Flatten(sh', rk, L[..k], m) + Flatten(sh', rk, L[k + 1..], m)
  {
    var sh' := WithoutTab(sh, t, c, k);
    var L := sh.children[c];
    var m := Measure(sh, rk, c);
    assert sh'.children[c] == L[..k] + L[k + 1..];
    FlattenAppend(sh', rk, L[..k], L[k + 1..], m);
  }

  lemma RemoveTabHere(sh: Shape, rk: Ranking, t: Id, c: Container, k: nat)
    requires Ranked(sh, rk) && (c == Root || IsFolder(sh, c.folder))
    requires t in sh.tabs && Content(t) !in sh.children
    requires k < |sh.children[c]| && sh.children[c][k] == t
    requires Ranked(WithoutTab(sh, t, c, k), rk)
    ensures Order(WithoutTab(sh, t, c, k), rk, c) == Filter(Order(sh, rk, c), {t})
  {
    var sh' := WithoutTab(sh, t, c, k);
    var r := if c == Root then -1 else rk.rank[c.folder];
    RemoveTabAgrees(sh, rk, t, c, k, r);
    var L := sh.children[c];
    var A, B := L[..k], L[k + 1..];
    var m := Measure(sh, rk, c);
    OrderAround(sh, rk, c, k);
    TabNode(sh, rk, t, m);
    RemoveTabAfter(sh, rk, t, c, k);
    FlattenFrame(sh, rk, sh', rk, r, {}, {}, {t}, A, m, m);
    FlattenFrame(sh, rk, sh', rk, r, {}, {}, {t}, B, m, m);
    FilterDrops(Flatten(sh, rk, A, m), t, Flatten(sh, rk, B, m));
  }

  /** Removing a tab takes exactly that tab out of document order. */
  lemma RemoveTabOrder(sh: Shape, rk: Ranking, t: Id, c: Container, k: nat)
    requires Ranked(sh, rk) && (c == Root || IsFolder(sh, c.folder))
    requires t in sh.tabs && Content(t) !in sh.children
    requires k < |sh.children[c]| && sh.children[c][k] == t
    ensures Ranked(WithoutTab(sh, t, c, k), rk)
    ensures Order(WithoutTab(sh, t, c, k), rk, Root) == Filter(Order(sh, rk, Root), {t})
  {
    var sh' := WithoutTab(sh, t, c, k);
    RemoveTabRanked(sh, rk, t, c, k);
    RemoveTabHere(sh, rk, t, c, k);
    if c != Root {
      var R := sh.children[Root];
      forall x ensures Matches(sh, rk, sh', -1, {}, {t}, x) {
      }
      assert Agrees(sh, rk, sh', rk, -1, {c.folder}, {}, {t});
      FlattenFrame(sh, rk, sh', rk, -1, {c.folder}, {}, {t}, R, rk.bound + 1, rk.bound + 1);
    }
  }

  // ---------------------------------------------------------------------------
  // Deleting a folder: its children move, in order, to where the folder was

  /** `f` appears once, at position `k` of container `p`. */
  ghost predicate OnlyAt(sh: Shape, f: Id, p: Container, k: nat) {
    forall c, i :: c in sh.children && 0 <= i < |sh.children[c]| && sh.children[c][i] == f ==>
      c == p && i == k
  }

  function Splice(sh: Shape, f: Id, p: Container, k: nat): Shape
    requires p in sh.children && k < |sh.children[p]| && Content(f) in sh.children
  {
    Shape(Dissolved(sh.children, f, p, k), sh.tabs)
  }

  lemma NotOwnParent(sh: Shape, rk: Ranking, f: Id, p: Container, k: nat)
    requires Ranked(sh, rk) && IsFolder(sh, f) && p in sh.children
    requires k < |sh.children[p]| && sh.children[p][k] == f
    ensures p != Content(f)
    ensures p != Root ==> IsFolder(sh, p.folder) ==> rk.rank[p.folder] < rk.rank[f]
  {
  }

  lemma SpliceRanked(sh: Shape, rk: Ranking, f: Id, p: Container, k: nat)
    requires Ranked(sh, rk) && IsFolder(sh, f) && (p == Root || IsFolder(sh, p.folder))
    requires k < |sh.children[p]| && sh.children[p][k] == f && OnlyAt(sh, f, p, k)
    ensures p != Content(f)
    ensures Ranked(Splice(sh, f, p, k), rk)
  {
    NotOwnParent(sh, rk, f, p, k);
    var sh' := Splice(sh, f, p, k);
    var L, K := sh.children[p], sh.children[Content(f)];
    assert forall x :: IsFolder(sh', x) <==> IsFolder(sh, x) && x != f;
    forall h, i | IsFolder(sh', h) && 0 <= i < |sh'.children[Content(h)]| &&
                  IsFolder(sh', sh'.children[Content(h)][i])
      ensures rk.rank[h] < rk.rank[sh'.children[Content(h)][i]]
    {
      if Content(h) == p {
        var x := sh'.children[Content(h)][i];
        if i < k {
          assert x == L[i];
        } else if i < k + |K| {
          assert x == K[i - k];
        } else {
          assert x == L[i - |K| + 1];
        }
      }
    }
  }

  lemma SpliceAgrees(sh: Shape, rk: Ranking, f: Id, p: Container, k: nat, r: int)
    requires Ranked(sh, rk) && IsFolder(sh, f) && (p == Root || IsFolder(sh, p.folder))
    requires k < |sh.children[p]| && sh.children[p][k] == f && OnlyAt(sh, f, p, k)
    requires p != Content(f) && Ranked(Splice(sh, f, p, k), rk)
    requires r == if p == Root then -1 else rk.rank[p.folder]
    ensures Agrees(sh, rk, Splice(sh, f, p, k), rk, r, {}, {f}, {})
  {
    var sh' := Splice(sh, f, p, k);
    forall h | IsFolder(sh, h) && h != f && rk.rank[h] > r
      ensures IsFolder(sh', h) && sh'.children[Content(h)] == sh.children[Content(h)]
      ensures forall i :: 0 <= i < |sh.children[Content(h)]| ==>
                Matches(sh, rk, sh', r, {f}, {}, sh.children[Content(h)][i])
    {
      assert Content(h) != p;
    }
  }

  /** The old side: the folder's own tabs sit between those of its siblings. */
  lemma SpliceOld(sh: Shape, rk: Ranking, f: Id, p: Container, k: nat)
    requires Ranked(sh, rk) && IsFolder(sh, f) && (p == Root || IsFolder(sh, p.folder))
    requires k < |sh.children[p]| && sh.children[p][k] == f && p != Content(f)
    ensures var L, m := sh.children[p], Measure(sh, rk, p);
      Fits(sh, rk, L[..k], m) && Fits(sh, rk, L[k + 1..], m) &&
      Fits(sh, rk, sh.children[Content(f)], rk.bound - rk.rank[f]) &&
      Order(sh, rk, p) ==
        Flatten(sh, rk, L[..k], m) + Flatten(sh, rk, sh.children[Content(f)], rk.bound - rk.rank[f])
        + Flatten(sh, rk, L[k + 1..], m)
  {
    OrderAround(sh, rk, p, k);
    FolderNode(sh, rk, f, Measure(sh, rk, p));
  }

  /** The new side: the folder's former children sit between its former siblings. */
  lemma SpliceNew(sh: Shape, rk: Ranking, f: Id, p: Container, k: nat)
    requires Ranked(sh, rk) && IsFolder(sh, f) && (p == Root || IsFolder(sh, p.folder))
    requires k < |sh.children[p]| && p != Content(f) && Ranked(Splice(sh, f, p, k), rk)
    ensures var sh', L := Splice(sh, f, p, k), sh.children[p];
      var m := Measure(sh, rk, p);
      (p == Root || IsFolder(sh', p.folder)) && m == Measure(sh', rk, p) &&
      Fits(sh', rk, L[..k], m) && Fits(sh', rk, L[k + 1..], m) &&
      Fits(sh', rk, sh.children[Content(f)], m) &&
      Order(sh', rk, p) ==
        Flatten(sh', rk, L[..k], m) + Flatten(sh', rk, sh.children[Content(f)], m)
        + Flatten(sh', rk, L[k + 1..], m)
  {
    var sh' := Splice(sh, f, p, k);
    var L, K := sh.children[p], sh.children[Content(f)];
    var A, B := L[..k], L[k + 1..];
    var m := Measure(sh, rk, p);
    SpliceParent(sh, rk, f, p, k);
    FlattenAppend(sh', rk, A, K + B, m);
    FlattenAppend(sh', rk, K, B, m);
  }

  lemma SpliceParent(sh: Shape, rk: Ranking, f: Id, p: Container, k: nat)
    requires Ranked(sh, rk) && IsFolder(sh, f) && (p == Root || IsFolder(sh, p.folder))
    requires k < |sh.children[p]| && p != Content(f) && Ranked(Splice(sh, f, p, k), rk)
    ensures var sh', L := Splice(sh, f, p, k), sh.children[p];
      var m, E := Measure(sh, rk, p), L[..k] + (sh.children[Content(f)] + L[k + 1..]);
      (p == Root || IsFolder(sh', p.folder)) && m == Measure(sh', rk, p) &&
      Fits(sh', rk, E, m) && Order(sh', rk, p) == Flatten(sh', rk, E, m)
  {
    var sh' := Splice(sh, f, p, k);
    var L, K := sh.children[p], sh.children[Content(f)];
    assert p != Root ==> IsFolder(sh', p.folder);
    assert sh'.children[p] == L[..k] + (K + L[k + 1..]);
  }

  lemma SpliceMatches(sh: Shape, rk: Ranking, f: Id, p: Container, k: nat, r: int)
    requires Ranked(sh, rk) && IsFolder(sh, f) && (p == Root || IsFolder(sh, p.folder))
    requires k < |sh.children[p]| && sh.children[p][k] == f && OnlyAt(sh, f, p, k)
    requires p != Content(f) && Ranked(Splice(sh, f, p, k), rk)
    requires r == if p == Root then -1 else rk.rank[p.folder]
    ensures var L := sh.children[p];
      forall x | x in L[..k] || x in L[k + 1..] || x in sh.children[Content(f)] ::
        Matches(sh, rk, Splice(sh, f, p, k), r, {f}, {}, x)
  {
    var sh' := Splice(sh, f, p, k);
    var L, K := sh.children[p], sh.children[Content(f)];
    forall x | x in L[..k] || x in L[k + 1..] || x in K ensures Matches(sh, rk, sh', r, {f}, {}, x) {
      if x in L[..k] || x in L[k + 1..] {
        var i :| 0 <= i < |L| && i != k && L[i] == x;
      } else {
        var i :| 0 <= i < |K| && K[i] == x;
      }
    }
  }

  lemma SpliceHere(sh: Shape, rk: Ranking, f: Id, p: Container, k: nat)
    requires Ranked(sh, rk) && IsFolder(sh, f) && (p == Root || IsFolder(sh, p.folder))
    requires k < |sh.children[p]| && sh.children[p][k] == f && OnlyAt(sh, f, p, k)
    requires p != Content(f) && Ranked(Splice(sh, f, p, k), rk)
    ensures Order(Splice(sh, f, p, k), rk, p) == Order(sh, rk, p)
  {
    var sh' := Splice(sh, f, p, k);
    var r := if p == Root then -1 else rk.rank[p.folder];
    var L, K := sh.children[p], sh.children[Content(f)];
    var A, B := L[..k], L[k + 1..];
    var m, mf := Measure(sh, rk, p), rk.bound - rk.rank[f];
    SpliceAgrees(sh, rk, f, p, k, r);
    SpliceMatches(sh, rk, f, p, k, r);
    SpliceOld(sh, rk, f, p, k);
    SpliceNew(sh, rk, f, p, k);
    FlattenFrame(sh, rk, sh', rk, r, {}, {f}, {}, A, m, m);
    FlattenFrame(sh, rk, sh', rk, r, {}, {f}, {}, K, mf, m);
    FlattenFrame(sh, rk, sh', rk, r, {}, {f}, {}, B, m, m);
    FilterNothing(Flatten(sh, rk, A, m));
    FilterNothing(Flatten(sh, rk, K, mf));
    FilterNothing(Flatten(sh, rk, B, m));
  }

  /** Splicing inside folder `p` leaves the top level's order alone. */
  lemma SpliceNested(sh: Shape, rk: Ranking, f: Id, p: Container, k: nat)
    requires Ranked(sh, rk) && IsFolder(sh, f) && p.Content? && IsFolder(sh, p.folder)
    requires k < |sh.children[p]| && sh.children[p][k] == f && OnlyAt(sh, f, p, k)
    requires p != Content(f) && Ranked(Splice(sh, f, p, k), rk)
    requires Order(Splice(sh, f, p, k), rk, p) == Order(sh, rk, p)
    ensures Order(Splice(sh, f, p, k), rk, Root) == Order(sh, rk, Root)
  {
    var sh' := Splice(sh, f, p, k);
    var R := sh.children[Root];
    SpliceNestedAgrees(sh, rk, f, p, k);
    FlattenFrame(sh, rk, sh', rk, -1, {p.folder}, {f}, {}, R, rk.bound + 1, rk.bound + 1);
    FilterNothing(Flatten(sh, rk, R, rk.bound + 1));
  }

  lemma SpliceNestedAgrees(sh: Shape, rk: Ranking, f: Id, p: Container, k: nat)
    requires Ranked(sh, rk) && IsFolder(sh, f) && p.Content? && IsFolder(sh, p.folder)
    requires k < |sh.children[p]| && sh.children[p][k] == f && OnlyAt(sh, f, p, k)
    requires p != Content(f) && Ranked(Splice(sh, f, p, k), rk)
    requires Order(Splice(sh, f, p, k), rk, p) == Order(sh, rk, p)
    ensures var sh' := Splice(sh, f, p, k);
      sh'.children[Root] == sh.children[Root] &&
      Agrees(sh, rk, sh', rk, -1, {p.folder}, {f}, {}) &&
      forall i :: 0 <= i < |sh.children[Root]| ==> Matches(sh, rk, sh', -1, {f}, {}, sh.children[Root][i])
  {
    var sh' := Splice(sh, f, p, k);
    var R := sh.children[Root];
    FilterNothing(Order(sh, rk, p));
    forall h | IsFolder(sh, h) && h != f && h != p.folder
      ensures IsFolder(sh', h) && sh'.children[Content(h)] == sh.children[Content(h)]
      ensures forall i :: 0 <= i < |sh.children[Content(h)]| ==>
                Matches(sh, rk, sh', -1, {f}, {}, sh.children[Content(h)][i])
    {
    }
    forall i | 0 <= i < |R| ensures Matches(sh, rk, sh', -1, {f}, {}, R[i]) {
    }
  }

  /** Deleting a folder and moving its children into its place keeps document order. */
  lemma SpliceOrder(sh: Shape, rk: Ranking, f: Id, p: Container, k: nat)
    requires Ranked(sh, rk) && IsFolder(sh, f) && (p == Root || IsFolder(sh, p.folder))
    requires k < |sh.children[p]| && sh.children[p][k] == f && OnlyAt(sh, f, p, k)
    ensures p != Content(f)
    ensures Ranked(Splice(sh, f, p, k), rk)
    ensures Order(Splice(sh, f, p, k), rk, Root) == Order(sh, rk, Root)
  {
    SpliceRanked(sh, rk, f, p, k);
    SpliceHere(sh, rk, f, p, k);
    if p != Root {
      SpliceNested(sh, rk, f, p, k);
    }
  }
}
