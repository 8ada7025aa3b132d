/**
 * What `document.querySelectorAll('.tab-item')` returns in a well-formed
 * workspace: every tab button, each exactly once.
 *
 * The proof follows each node up through the folders it sits in (its
 * chain).  A tab listed under a node has that node in its chain, and two
 * nodes of one chain never share a parent, so the subtrees of two siblings
 * hold different tabs.
 */
module DocumentOrder {
  import opened Wrappers
  import opened Layout
  import opened Sidebar

  /** Tabs, folders, child lists and parents form one forest under the top-level list. */
  ghost predicate Forest(tabs: map<Id, Tab>, folders: map<Id, Folder>, children: map<Container, seq<Id>>,
                         parent: map<Id, Container>, rk: Ranking)
  {
    Keyed(tabs, folders, children, parent) && Linked(children, parent) &&
    Ranked(Shape(children, tabs.Keys), rk)
  }

  /** A bound on how far `x` sits from the top-level list: a folder's rank, or the ranking's bound. */
  ghost function Height(tabs: map<Id, Tab>, rk: Ranking, x: Id): nat {
    if x in tabs || x !in rk.rank then rk.bound else rk.rank[x]
  }

  /** The folder holding a node is a ranked folder of lower height. */
  lemma ParentBelow(tabs: map<Id, Tab>, folders: map<Id, Folder>, children: map<Container, seq<Id>>,
                    parent: map<Id, Container>, rk: Ranking, x: Id, f: Id)
    requires Forest(tabs, folders, children, parent, rk) && x in parent && parent[x] == Content(f)
    ensures f in folders && f in parent && f !in tabs && f in rk.rank
    ensures rk.rank[f] < Height(tabs, rk, x)
  {
    var sh := Shape(children, tabs.Keys);
    assert IsFolder(sh, f);
    if x !in tabs && x in rk.rank {
      var K := children[Content(f)];
      var i :| 0 <= i < |K| && K[i] == x;
      assert IsFolder(sh, K[i]);
    }
  }

  /** The node `x` followed by the folders it sits in, innermost first. */
  ghost function Chain(tabs: map<Id, Tab>, folders: map<Id, Folder>, children: map<Container, seq<Id>>,
                       parent: map<Id, Container>, rk: Ranking, x: Id): (r: seq<Id>)
    requires Forest(tabs, folders, children, parent, rk) && x in parent
    ensures |r| > 0 && r[0] == x
    decreases Height(tabs, rk, x)
  {
    match parent[x]
    case Root => [x]
    case Content(f) =>
      ParentBelow(tabs, folders, children, parent, rk, x, f);
      [x] + Chain(tabs, folders, children, parent, rk, f)
  }

  /** The chain of a folder holds only folders, none ranked above it. */
  lemma {:induction false} ChainRanks(tabs: map<Id, Tab>, folders: map<Id, Folder>, children: map<Container, seq<Id>>,
                                      parent: map<Id, Container>, rk: Ranking, f: Id)
    requires Forest(tabs, folders, children, parent, rk) && f in folders
    ensures f in parent && f !in tabs && f in rk.rank
    ensures forall z :: z in Chain(tabs, folders, children, parent, rk, f) ==>
      z in folders && z !in tabs && z in rk.rank && rk.rank[z] <= rk.rank[f]
    decreases Height(tabs, rk, f)
  {
    assert IsFolder(Shape(children, tabs.Keys), f);
    match parent[f]
    case Root =>
    case Content(g) =>
      ParentBelow(tabs, folders, children, parent, rk, f, g);
      ChainRanks(tabs, folders, children, parent, rk, g);
  }

  /** Whatever holds a node of the chain is in the chain too. */
  lemma {:induction false} ChainClosed(tabs: map<Id, Tab>, folders: map<Id, Folder>, children: map<Container, seq<Id>>,
                                       parent: map<Id, Container>, rk: Ranking, x: Id, y: Id, g: Id)
    requires Forest(tabs, folders, children, parent, rk) && x in parent
    requires y in Chain(tabs, folders, children, parent, rk, x) && y in parent && parent[y] == Content(g)
    ensures g in Chain(tabs, folders, children, parent, rk, x)
    decreases Height(tabs, rk, x)
  {
    match parent[x]
    case Root =>
    case Content(f) =>
      ParentBelow(tabs, folders, children, parent, rk, x, f);
      if y != x {
        ChainClosed(tabs, folders, children, parent, rk, f, y, g);
      }
  }

  /** No two nodes of one chain sit in the same container. */
  lemma {:induction false} ChainParents(tabs: map<Id, Tab>, folders: map<Id, Folder>, children: map<Container, seq<Id>>,
                                        parent: map<Id, Container>, rk: Ranking, x: Id, y: Id, z: Id)
    requires Forest(tabs, folders, children, parent, rk) && x in parent
    requires y in Chain(tabs, folders, children, parent, rk, x)
    requires z in Chain(tabs, folders, children, parent, rk, x)
    requires y in parent && z in parent && parent[y] == parent[z]
    ensures y == z
    decreases Height(tabs, rk, x)
  {
    match parent[x]
    case Root =>
    case Content(f) =>
      ParentBelow(tabs, folders, children, parent, rk, x, f);
      var up := Chain(tabs, folders, children, parent, rk, f);
      if y in up && z in up {
        ChainParents(tabs, folders, children, parent, rk, f, y, z);
      } else if y != z {
        // one of them is x, and the other, a folder inside f, would be ranked both below and above f
        var w := if y == x then z else y;
        assert w in up && parent[w] == Content(f);
        ChainRanks(tabs, folders, children, parent, rk, f);
        ParentBelow(tabs, folders, children, parent, rk, w, f);
        assert false;
      }
  }

  lemma DistinctConcat(a: seq<Id>, b: seq<Id>)
    requires Distinct(a) && Distinct(b) && forall t :: t in a ==> t !in b
    ensures Distinct(a + b)
  {
    var s := a + b;
    forall i, j | 0 <= i < j < |s| ensures s[i] != s[j] {
      if i < |a| <= j {
        assert s[i] in a && s[j] == b[j - |a|];
      }
    }
  }

  /** The tabs listed under node `x` are distinct, and `x` is in the chain of each. */
  lemma {:induction false} NodeUnder(tabs: map<Id, Tab>, folders: map<Id, Folder>, children: map<Container, seq<Id>>,
                                     parent: map<Id, Container>, rk: Ranking, x: Id, m: nat)
    requires Forest(tabs, folders, children, parent, rk) && x in parent
    requires Fits(Shape(children, tabs.Keys), rk, [x], m)
    ensures var r := Node(Shape(children, tabs.Keys), rk, x, m);
      Distinct(r) &&
      forall t :: t in r ==> t in tabs && t in parent && x in Chain(tabs, folders, children, parent, rk, t)
    decreases m, 0
  {
    var sh := Shape(children, tabs.Keys);
    if x !in tabs && Content(x) in children {
      assert [x][0] == x;
      var K := children[Content(x)];
      FlattenUnder(tabs, folders, children, parent, rk, K, Measure(sh, rk, Content(x)), Content(x));
      forall t | t in Node(sh, rk, x, m)
        ensures x in Chain(tabs, folders, children, parent, rk, t)
      {
        var y :| y in K && y in Chain(tabs, folders, children, parent, rk, t);
        ChainClosed(tabs, folders, children, parent, rk, t, y, x);
      }
    }
  }

  /**
   * The tabs listed under the nodes `ids` of container `c` are distinct,
   * and the chain of each passes through one of `ids`.
   */
  lemma {:induction false} FlattenUnder(tabs: map<Id, Tab>, folders: map<Id, Folder>, children: map<Container, seq<Id>>,
                                        parent: map<Id, Container>, rk: Ranking, ids: seq<Id>, m: nat, c: Container)
    requires Forest(tabs, folders, children, parent, rk)
    requires Fits(Shape(children, tabs.Keys), rk, ids, m) && Distinct(ids)
    requires forall i :: 0 <= i < |ids| ==> ids[i] in parent && parent[ids[i]] == c
    ensures var r := Flatten(Shape(children, tabs.Keys), rk, ids, m);
      Distinct(r) &&
      forall t :: t in r ==>
        (t in tabs && t in parent && exists y :: y in ids && y in Chain(tabs, folders, children, parent, rk, t))
    decreases m, |ids|
  {
    if ids != [] {
      var sh := Shape(children, tabs.Keys);
      var x, rest := ids[0], ids[1..];
      assert ids == [x] + rest;
      FitsSplit(sh, rk, [x], rest, m);
      NodeUnder(tabs, folders, children, parent, rk, x, m);
      FlattenUnder(tabs, folders, children, parent, rk, rest, m, c);
      var a, b := Node(sh, rk, x, m), Flatten(sh, rk, rest, m);
      forall t | t in a ensures t !in b {
        if t in b {
          var y :| y in rest && y in Chain(tabs, folders, children, parent, rk, t);
          ChainParents(tabs, folders, children, parent, rk, t, x, y);
        }
      }
      DistinctConcat(a, b);
      forall t | t in a + b
        ensures exists y :: y in ids && y in Chain(tabs, folders, children, parent, rk, t)
      {
        if t in a {
          assert x in ids;
        } else {
          var y :| y in rest && y in Chain(tabs, folders, children, parent, rk, t);
          assert y in ids;
        }
      }
    }
  }

  /** The tabs listed under a node of `ids` are listed under `ids`. */
  lemma {:induction false} FlattenHas(sh: Shape, rk: Ranking, ids: seq<Id>, m: nat, x: Id)
    requires Ranked(sh, rk) && Fits(sh, rk, ids, m) && x in ids
    ensures Fits(sh, rk, [x], m)
    ensures forall t :: t in Node(sh, rk, x, m) ==> t in Flatten(sh, rk, ids, m)
    decreases |ids|
  {
    assert ids == [ids[0]] + ids[1..];
    FitsSplit(sh, rk, [ids[0]], ids[1..], m);
    if ids[0] != x {
      FlattenHas(sh, rk, ids[1..], m, x);
    }
  }

  /** Every tab listed under a node is listed in the top-level list. */
  lemma {:induction false} InRoot(tabs: map<Id, Tab>, folders: map<Id, Folder>, children: map<Container, seq<Id>>,
                                  parent: map<Id, Container>, rk: Ranking, x: Id)
    requires Forest(tabs, folders, children, parent, rk) && x in parent
    ensures Fits(Shape(children, tabs.Keys), rk, [x], rk.bound + 1)
    ensures forall t :: t in Node(Shape(children, tabs.Keys), rk, x, rk.bound + 1) ==>
      t in Order(Shape(children, tabs.Keys), rk, Root)
    decreases Height(tabs, rk, x)
  {
    var sh := Shape(children, tabs.Keys);
    assert [x][0] == x;
    var c := parent[x];
    assert x in children[c];
    ParentIsContainer(tabs, folders, children, parent, c);
    FlattenHas(sh, rk, children[c], Measure(sh, rk, c), x);
    match c
    case Root =>
    case Content(f) =>
      ParentBelow(tabs, folders, children, parent, rk, x, f);
      InRoot(tabs, folders, children, parent, rk, f);
      assert Node(sh, rk, f, rk.bound + 1) == Order(sh, rk, Content(f));
  }

  /** Document order lists every tab, and nothing else, exactly once. */
  lemma OrderListsTabs(tabs: map<Id, Tab>, folders: map<Id, Folder>, children: map<Container, seq<Id>>,
                       parent: map<Id, Container>, rk: Ranking)
    requires Forest(tabs, folders, children, parent, rk)
    ensures var all := Order(Shape(children, tabs.Keys), rk, Root);
      Distinct(all) && forall t :: t in all <==> t in tabs
  {
    var sh := Shape(children, tabs.Keys);
    FlattenUnder(tabs, folders, children, parent, rk, children[Root], rk.bound + 1, Root);
    forall t | t in tabs ensures t in Order(sh, rk, Root) {
      InRoot(tabs, folders, children, parent, rk, t);
      assert Node(sh, rk, t, rk.bound + 1) == [t];
    }
  }

  /**
   * The tab `closeTab` hands the focus to, read off document order: the tab
   * right after the closed one, or else the one right before it.
   */
  lemma ReplacementInOrder(tabs: map<Id, Tab>, folders: map<Id, Folder>, children: map<Container, seq<Id>>,
                           parent: map<Id, Container>, rk: Ranking, id: Id)
    requires Forest(tabs, folders, children, parent, rk) && id in tabs
    ensures var all := Order(Shape(children, tabs.Keys), rk, Root);
      FirstIndex(all, id).Some? &&
      var i := FirstIndex(all, id).value;
      Replacement(all, id) ==
        (if i + 1 < |all| then Some(all[i + 1]) else if i > 0 then Some(all[i - 1]) else None) &&
      Replacement(all, id) != Some(id)
  {
    var all := Order(Shape(children, tabs.Keys), rk, Root);
    OrderListsTabs(tabs, folders, children, parent, rk);
    var i := FirstIndex(all, id).value;
    ReplacementAt(all, i);
  }
}
