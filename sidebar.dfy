/**
 * The renderer's workspace: the tab buttons and folders of the sidebar, the
 * page view bound to each tab, and the global `activeTabId`.
 *
 * The DOM tree of the sidebar is kept as an arena (see module Layout): one
 * ordered child list per container, and a `parent` map standing for each
 * node's `parentElement`.  A tab's button and its view carry the `active`
 * class together, so one flag per tab stands for both.
 */
module Sidebar {
  import opened Wrappers
  import opened Layout

  /**
   * A tab: the text of its title span, the address its view was asked to
   * load, whether its view exists yet, and whether it carries `active`.
   */
  datatype Tab = Tab(title: string, url: string, hasView: bool, active: bool)

  /** A folder: the text of its title span and whether its header is `collapsed`. */
  datatype Folder = Folder(title: string, collapsed: bool)

  const NewFolderTitle := "New Folder"

  /** The folder after a click on its header: only `collapsed` flips. */
  function Toggled(g: Folder): (r: Folder)
    ensures r.title == g.title && r.collapsed == !g.collapsed
  {
    g.(collapsed := !g.collapsed)
  }

  /** A second click undoes the first. */
  lemma ToggledTwice(folders: map<Id, Folder>, id: Id)
    requires id in folders
    ensures var once := folders[id := Toggled(folders[id])];
      once[id := Toggled(once[id])] == folders
  {
    var once := folders[id := Toggled(folders[id])];
    assert Toggled(once[id]) == folders[id];
  }

  /** Both the tab button and its view exist (the test at the top of `activateTab` and `closeTab`). */
  predicate Shown(tabs: map<Id, Tab>, id: Id) {
    id in tabs && tabs[id].hasView
  }

  /** The position of the first `x` in `s` (`Array.prototype.findIndex`). */
  function FirstIndex(s: seq<Id>, x: Id): (r: Option<nat>)
    ensures r.Some? ==> r.value < |s| && s[r.value] == x && x !in s[..r.value]
    ensures r.None? ==> x !in s
  {
    if s == [] then None
    else if s[0] == x then Some(0)
    else match FirstIndex(s[1..], x)
      case None => None
      case Some(i) => assert s[1..][..i] == s[1..i + 1]; Some(i + 1)
  }

  /** No element occurs twice in `s`. */
  predicate Distinct(s: seq<Id>) {
    forall i, j :: 0 <= i < j < |s| ==> s[i] != s[j]
  }

  /**
   * The tab `closeTab` hands the focus to when it closes `id`: the one after
   * it in `all`, or else the one before it.
   */
  function Replacement(all: seq<Id>, id: Id): (r: Option<Id>)
    ensures r.Some? <==> id in all && |all| > 1
    ensures r.Some? ==> r.value in all
  {
    match FirstIndex(all, id)
    case None => None
    case Some(i) =>
      if i < |all| - 1 then Some(all[i + 1])
      else if i > 0 then Some(all[i - 1])
      else None
  }

  /** The replacement of the tab at position `i` is its successor, or its predecessor when it is last. */
  lemma ReplacementAt(all: seq<Id>, i: nat)
    requires i < |all| && Distinct(all)
    ensures Replacement(all, all[i]) ==
      if i + 1 < |all| then Some(all[i + 1]) else if i > 0 then Some(all[i - 1]) else None
    ensures Replacement(all, all[i]) != Some(all[i])
  {
  }


  // ---------------------------------------------------------------------------
  // Activation

  /** Every tab with its `active` flag cleared. */
  function Cleared(tabs: map<Id, Tab>): (r: map<Id, Tab>)
    ensures r.Keys == tabs.Keys
    ensures forall t :: t in r ==> r[t] == tabs[t].(active := false)
  {
    map t | t in tabs :: tabs[t].(active := false)
  }

  /** The two `forEach` loops at the top of `activateTab`: each active tab loses `active`. */
  method ClearActive(tabs0: map<Id, Tab>) returns (tabs: map<Id, Tab>)
    ensures tabs == Cleared(tabs0)
  {
    tabs := tabs0;
    var pending := set t | t in tabs && tabs[t].active;
    while pending != {}
      invariant pending <= tabs.Keys && tabs.Keys == tabs0.Keys
      invariant forall t :: t in tabs ==> tabs[t] == tabs0[t].(active := tabs0[t].active && t in pending)
      decreases pending
    {
      var t :| t in pending;
      tabs := tabs[t := tabs[t].(active := false)];
      pending := pending - {t};
    }
  }

  /**
   * The tabs after `activateTab(id)`: no tab is active any more, except
   * `id` itself when its button and view both exist; nothing else changes.
   */
  function Activated(tabs: map<Id, Tab>, id: Id): (r: map<Id, Tab>)
    ensures r.Keys == tabs.Keys
    ensures forall t :: t in r ==> r[t] == tabs[t].(active := t == id && Shown(tabs, id))
  {
    var cleared := Cleared(tabs);
    if Shown(tabs, id) then cleared[id := cleared[id].(active := true)] else cleared
  }

  // ---------------------------------------------------------------------------
  // Well-formedness of the workspace, stated on values

  /** Tabs and folders are told apart, every folder has a content area, every node a parent. */
  ghost predicate Keyed(tabs: map<Id, Tab>, folders: map<Id, Folder>,
                        children: map<Container, seq<Id>>, parent: map<Id, Container>)
  {
    tabs.Keys !! folders.Keys &&
    (forall c :: c in children <==> c == Root || (c.Content? && c.folder in folders)) &&
    (forall x {:trigger x in parent} :: x in parent <==> x in tabs || x in folders)
  }

  /**
   * `parent` and the child lists describe the same tree: a node sits, once,
   * in the list of its parent and in no other.
   */
  ghost predicate Linked(children: map<Container, seq<Id>>, parent: map<Id, Container>) {
    (forall x {:trigger parent[x]} :: x in parent ==> parent[x] in children && x in children[parent[x]]) &&
    (forall c, i :: c in children && 0 <= i < |children[c]| ==>
       children[c][i] in parent && parent[children[c][i]] == c) &&
    (forall c :: c in children ==> Distinct(children[c]))
  }

  /** Only the tab `activeTabId` names can be active, and only once its view exists. */
  ghost predicate Flagged(tabs: map<Id, Tab>, activeTabId: Option<Id>) {
    forall t :: t in tabs && tabs[t].active ==> tabs[t].hasView && activeTabId == Some(t)
  }

  /** At most one tab is active. */
  lemma OneActive(tabs: map<Id, Tab>, activeTabId: Option<Id>, t: Id, u: Id)
    requires Flagged(tabs, activeTabId)
    requires t in tabs && tabs[t].active && u in tabs && tabs[u].active
    ensures t == u
  {
  }

  /** The container a node of a well-formed workspace sits in is the list or a folder's content area. */
  lemma ParentIsContainer(tabs: map<Id, Tab>, folders: map<Id, Folder>,
                          children: map<Container, seq<Id>>, parent: map<Id, Container>, c: Container)
    requires Keyed(tabs, folders, children, parent) && c in children
    ensures c == Root || IsFolder(Shape(children, tabs.Keys), c.folder)
  {
  }

  /** A node that is neither a tab nor a folder sits nowhere and has no content area. */
  lemma FreshAbsent(tabs: map<Id, Tab>, folders: map<Id, Folder>,
                    children: map<Container, seq<Id>>, parent: map<Id, Container>, x: Id)
    requires Keyed(tabs, folders, children, parent) && Linked(children, parent)
    requires x !in tabs && x !in folders
    ensures x !in parent && Content(x) !in children && Absent(Shape(children, tabs.Keys), x)
  {
  }

  // ---------------------------------------------------------------------------
  // Child lists under the three edits

  lemma AppendMembers(L: seq<Id>, x: Id)
    requires Distinct(L) && x !in L
    ensures Distinct(L + [x])
    ensures forall y :: y in L + [x] <==> y in L || y == x
  {
  }

  lemma RemoveMembers(L: seq<Id>, k: nat)
    requires Distinct(L) && k < |L|
    ensures Distinct(L[..k] + L[k + 1..])
    ensures forall y :: y in L[..k] + L[k + 1..] <==> y in L && y != L[k]
  {
    var L' := L[..k] + L[k + 1..];
    assert forall i :: 0 <= i < |L'| ==> L'[i] == if i < k then L[i] else L[i + 1];
    forall y | y in L && y != L[k] ensures y in L' {
      var i :| 0 <= i < |L| && L[i] == y;
      assert L'[if i < k then i else i - 1] == y;
    }
  }

  /** The child list of `p` once the folder at position `k` has given way to its children `K`. */
  lemma SplicedAt(L: seq<Id>, K: seq<Id>, k: nat, i: nat)
    requires k < |L| && i < |L| - 1 + |K|
    ensures var L' := L[..k] + K + L[k + 1..];
      |L'| == |L| - 1 + |K| &&
      L'[i] == if i < k then L[i] else if i < k + |K| then K[i - k] else L[i - |K| + 1]
  {
  }

  lemma SpliceMembers(L: seq<Id>, K: seq<Id>, k: nat)
    requires Distinct(L) && Distinct(K) && k < |L|
    requires forall a, b :: 0 <= a < |K| && 0 <= b < |L| ==> K[a] != L[b]
    ensures Distinct(L[..k] + K + L[k + 1..])
    ensures forall y :: y in L[..k] + K + L[k + 1..] <==> (y in L && y != L[k]) || y in K
  {
    var L' := L[..k] + K + L[k + 1..];
    forall i, j | 0 <= i < j < |L'| ensures L'[i] != L'[j] {
      SplicedAt(L, K, k, i);
      SplicedAt(L, K, k, j);
      if i < k && j < k + |K| && k <= j {
        assert L'[j] == K[j - k] && L'[i] == L[i];
      } else if k <= i < k + |K| && k + |K| <= j {
        assert L'[i] == K[i - k] && L'[j] == L[j - |K| + 1];
      }
    }
    forall y | y in L' ensures (y in L && y != L[k]) || y in K {
      var i :| 0 <= i < |L'| && L'[i] == y;
      SplicedAt(L, K, k, i);
      if i < k || k + |K| <= i {
        var j := if i < k then i else i - |K| + 1;
        assert L[j] == y && j != k;
      }
    }
    forall y | (y in L && y != L[k]) || y in K ensures y in L' {
      if y in K {
        var a :| 0 <= a < |K| && K[a] == y;
        SplicedAt(L, K, k, k + a);
      } else {
        var j :| 0 <= j < |L| && L[j] == y;
        var i := if j < k then j else j + |K| - 1;
        SplicedAt(L, K, k, i);
      }
    }
  }

  // ---------------------------------------------------------------------------
  // The three edits keep `parent` and the child lists in step

  lemma LinkedAppend(children: map<Container, seq<Id>>, parent: map<Id, Container>, c: Container, x: Id)
    requires Linked(children, parent) && c in children && x !in parent
    ensures Linked(children[c := children[c] + [x]], parent[x := c])
  {
    var L := children[c];
    var children', parent' := children[c := L + [x]], parent[x := c];
    AppendMembers(L, x);
    forall d, i | d in children' && 0 <= i < |children'[d]|
      ensures children'[d][i] in parent' && parent'[children'[d][i]] == d
    {
      if d == c && i < |L| {
        assert children'[d][i] == L[i];
      }
    }
  }

  /** A new, empty container changes nothing about who sits where. */
  lemma LinkedEmpty(children: map<Container, seq<Id>>, parent: map<Id, Container>, d: Container)
    requires Linked(children, parent) && d !in children
    ensures Linked(children[d := []], parent)
  {
    var children' := children[d := []];
    forall c, i | c in children' && 0 <= i < |children'[c]|
      ensures children'[c][i] in parent && parent[children'[c][i]] == c
    {
      assert c != d && children'[c] == children[c];
    }
    forall x | x in parent ensures parent[x] in children' && x in children'[parent[x]] {
      assert parent[x] != d;
    }
  }

  lemma LinkedRemove(children: map<Container, seq<Id>>, parent: map<Id, Container>,
                     x: Id, c: Container, k: nat)
    requires Linked(children, parent) && c in children && k < |children[c]| && children[c][k] == x
    ensures var L := children[c];
      Linked(children[c := L[..k] + L[k + 1..]], parent - {x})
  {
    var L := children[c];
    var children', parent' := children[c := L[..k] + L[k + 1..]], parent - {x};
    RemoveMembers(L, k);
    forall d, i | d in children' && 0 <= i < |children'[d]|
      ensures children'[d][i] in parent' && parent'[children'[d][i]] == d
    {
      if d == c {
        var j := if i < k then i else i + 1;
        assert children'[d][i] == L[j] && j != k;
      } else {
        assert children'[d][i] == children[d][i];
      }
    }
    forall y | y in parent' ensures parent'[y] in children' && y in children'[parent'[y]] {
      assert y in children[parent[y]];
    }
  }

  /** `parent` after the children `K` have moved to container `p`. */
  function Reparent(parent: map<Id, Container>, K: seq<Id>, p: Container): (r: map<Id, Container>)
    ensures r.Keys == parent.Keys
    ensures forall x :: x in r ==> r[x] == if x in K then p else parent[x]
  {
    map x | x in parent :: if x in K then p else parent[x]
  }

  lemma LinkedSplice(children: map<Container, seq<Id>>, parent: map<Id, Container>,
                     f: Id, p: Container, k: nat)
    requires Linked(children, parent) && p in children && Content(f) in children && p != Content(f)
    requires k < |children[p]| && children[p][k] == f
    ensures var L, K := children[p], children[Content(f)];
      Linked((children - {Content(f)})[p := L[..k] + K + L[k + 1..]], Reparent(parent, K, p) - {f})
  {
    var L, K := children[p], children[Content(f)];
    var children' := (children - {Content(f)})[p := L[..k] + K + L[k + 1..]];
    var parent' := Reparent(parent, K, p) - {f};
    forall a, b | 0 <= a < |K| && 0 <= b < |L| ensures K[a] != L[b] {
      assert parent[K[a]] == Content(f) && parent[L[b]] == p;
    }
    SpliceMembers(L, K, k);
    forall y | y in K ensures y in parent && parent[y] == Content(f) && y != f {
      var a :| 0 <= a < |K| && K[a] == y;
    }
    forall d, i | d in children' && 0 <= i < |children'[d]|
      ensures children'[d][i] in parent' && parent'[children'[d][i]] == d
    {
      var y := children'[d][i];
      if d == p {
        SplicedAt(L, K, k, i);
        if i < k || k + |K| <= i {
          var j := if i < k then i else i - |K| + 1;
          assert y == L[j] && j != k;
          assert y !in K;
        }
      } else {
        assert y == children[d][i] && parent[y] == d;
        assert y !in K;
      }
    }
    forall y | y in parent' ensures parent'[y] in children' && y in children'[parent'[y]] {
      assert y in children[parent[y]];
      if parent[y] == Content(f) {
        assert y in K;
      }
    }
  }

  // ---------------------------------------------------------------------------
  // The three edits keep tabs, folders, containers and parents in step

  lemma KeyedAppendTab(tabs: map<Id, Tab>, folders: map<Id, Folder>, children: map<Container, seq<Id>>,
                       parent: map<Id, Container>, id: Id, t: Tab)
    requires Keyed(tabs, folders, children, parent) && id !in tabs && id !in folders
    ensures Keyed(tabs[id := t], folders, children[Root := children[Root] + [id]], parent[id := Root])
  {
  }

  lemma KeyedRemoveTab(tabs: map<Id, Tab>, folders: map<Id, Folder>, children: map<Container, seq<Id>>,
                       parent: map<Id, Container>, id: Id, c: Container, L: seq<Id>)
    requires Keyed(tabs, folders, children, parent) && id in tabs && c in children
    ensures Keyed(tabs - {id}, folders, children[c := L], parent - {id})
  {
  }

  lemma KeyedAppendFolder(tabs: map<Id, Tab>, folders: map<Id, Folder>, children: map<Container, seq<Id>>,
                          parent: map<Id, Container>, id: Id, c: Container, g: Folder)
    requires Keyed(tabs, folders, children, parent) && id !in tabs && id !in folders && c in children
    ensures Keyed(tabs, folders[id := g], children[c := children[c] + [id]][Content(id) := []], parent[id := c])
  {
  }

  lemma KeyedSplice(tabs: map<Id, Tab>, folders: map<Id, Folder>, children: map<Container, seq<Id>>,
                    parent: map<Id, Container>, f: Id, p: Container, L: seq<Id>, K: seq<Id>)
    requires Keyed(tabs, folders, children, parent) && f in folders && p in children && p != Content(f)
    ensures Keyed(tabs, folders - {f}, (children - {Content(f)})[p := L], Reparent(parent, K, p) - {f})
  {
  }

  /**
   * The `while (folderContent.firstChild)` loop of the folder-delete handler:
   * the children `K` of the content area move, first to last, in front of the
   * folder header at position `k` of its parent `p`.
   */
  method MoveChildren(children0: map<Container, seq<Id>>, parent0: map<Id, Container>,
                      f: Id, p: Container, k: nat)
    returns (children: map<Container, seq<Id>>, parent: map<Id, Container>)
    requires p in children0 && Content(f) in children0 && p != Content(f) && k <= |children0[p]|
    requires forall i :: 0 <= i < |children0[Content(f)]| ==> children0[Content(f)][i] in parent0
    ensures var L, K := children0[p], children0[Content(f)];
      children == children0[p := L[..k] + K + L[k..]][Content(f) := []]
    ensures parent == Reparent(parent0, children0[Content(f)], p)
  {
    ghost var L, K := children0[p], children0[Content(f)];
    children, parent := children0, parent0;
    var at := k;
    assert L[..k] + K[..0] + L[k..] == L && K[0..] == K;
    assert children0[p := L][Content(f) := K] == children0;
    assert Reparent(parent0, K[..0], p) == parent0;
    while children[Content(f)] != []
      invariant k <= at <= k + |K|
      invariant children == children0[p := L[..k] + K[..at - k] + L[k..]][Content(f) := K[at - k..]]
      invariant parent == Reparent(parent0, K[..at - k], p)
      decreases |children[Content(f)]|
    {
      ghost var done := K[..at - k];
      var x := children[Content(f)][0];
      assert x == K[at - k];
      assert K[..at + 1 - k] == done + [x];
      assert children[p][..at] == L[..k] + done && children[p][at..] == L[k..];
      assert children[Content(f)][1..] == K[at + 1 - k..];
      children := children[p := children[p][..at] + [x] + children[p][at..]]
                          [Content(f) := children[Content(f)][1..]];
      assert children[p] == L[..k] + K[..at + 1 - k] + L[k..];
      assert children == children0[p := L[..k] + K[..at + 1 - k] + L[k..]][Content(f) := K[at + 1 - k..]];
      assert Reparent(parent0, done, p)[x := p] == Reparent(parent0, done + [x], p);
      parent := parent[x := p];
      at := at + 1;
    }
    assert K[..at - k] == K;
  }

  /**
   * The folder-delete handler on the maps: after the children of `f` have
   * moved in front of its header at position `k` of `p`, the header (now
   * right after them) and the emptied content area are removed.
   */
  method DissolveFolder(children0: map<Container, seq<Id>>, parent0: map<Id, Container>,
                        f: Id, p: Container, k: nat)
    returns (children: map<Container, seq<Id>>, parent: map<Id, Container>)
    requires p in children0 && Content(f) in children0 && p != Content(f)
    requires k < |children0[p]| && children0[p][k] == f
    requires forall i :: 0 <= i < |children0[Content(f)]| ==> children0[Content(f)][i] in parent0
    ensures children == Dissolved(children0, f, p, k)
    ensures parent == Reparent(parent0, children0[Content(f)], p) - {f}
  {
    ghost var L, K := children0[p], children0[Content(f)];
    var n := |children0[Content(f)]|;
    var ch, pa := MoveChildren(children0, parent0, f, p, k);
    assert ch[p] == L[..k] + K + L[k..];
    assert ch[p][k + n] == f;
    assert ch[p][..k + n] + ch[p][k + n + 1..] == L[..k] + K + L[k + 1..];
    children := (ch - {Content(f)})[p := ch[p][..k + n] + ch[p][k + n + 1..]];
    parent := pa - {f};
  }
}
