/**
 * The well-formedness of the whole workspace, and, for each edit the
 * renderer makes to the sidebar, the proof that the edit keeps it and how
 * the edit moves the tabs in document order.
 *
 * These lemmas work on the values of the workspace's fields; the class in
 * module Renderer applies them to its own state.
 */
module Edits {
  import opened Wrappers
  import opened Layout
  import opened Sidebar

  /** Every part of the workspace fits with every other. */
  ghost predicate Wf(tabs: map<Id, Tab>, folders: map<Id, Folder>, children: map<Container, seq<Id>>,
                     parent: map<Id, Container>, activeTabId: Option<Id>, rk: Ranking)
  {
    Keyed(tabs, folders, children, parent) && Linked(children, parent) &&
    Ranked(Shape(children, tabs.Keys), rk) && Flagged(tabs, activeTabId)
  }

  // ---------------------------------------------------------------------------
  // How each edit keeps the workspace well formed and moves document order

  lemma WfActivated(tabs: map<Id, Tab>, folders: map<Id, Folder>, children: map<Container, seq<Id>>,
                    parent: map<Id, Container>, activeTabId: Option<Id>, rk: Ranking, id: Id)
    requires Wf(tabs, folders, children, parent, activeTabId, rk)
    ensures Activated(tabs, id).Keys == tabs.Keys
    ensures Wf(Activated(tabs, id), folders, children, parent,
               if Shown(tabs, id) then Some(id) else activeTabId, rk)
  {
    var tabs' := Activated(tabs, id);
    assert Shape(children, tabs.Keys) == Shape(children, tabs'.Keys);
    assert Keyed(tabs', folders, children, parent);
  }

  /** Replacing one tab's record keeps the workspace well formed if the flags stay consistent. */
  lemma WfRetab(tabs: map<Id, Tab>, folders: map<Id, Folder>, children: map<Container, seq<Id>>,
                parent: map<Id, Container>, activeTabId: Option<Id>, rk: Ranking, id: Id, t: Tab)
    requires Wf(tabs, folders, children, parent, activeTabId, rk) && id in tabs
    requires t.active ==> t.hasView && activeTabId == Some(id)
    ensures tabs[id := t].Keys == tabs.Keys
    ensures Wf(tabs[id := t], folders, children, parent, activeTabId, rk)
  {
    assert tabs[id := t].Keys == tabs.Keys;
    assert Keyed(tabs[id := t], folders, children, parent);
  }

  lemma WfAppendTab(tabs: map<Id, Tab>, folders: map<Id, Folder>, children: map<Container, seq<Id>>,
                    parent: map<Id, Container>, activeTabId: Option<Id>, rk: Ranking, id: Id, t: Tab)
    requires Wf(tabs, folders, children, parent, activeTabId, rk) && id !in tabs && id !in folders
    requires !t.active
    ensures var tabs', children' := tabs[id := t], children[Root := children[Root] + [id]];
      Wf(tabs', folders, children', parent[id := Root], activeTabId, rk) &&
      Order(Shape(children', tabs'.Keys), rk, Root) == Order(Shape(children, tabs.Keys), rk, Root) + [id]
  {
    var tabs', children' := tabs[id := t], children[Root := children[Root] + [id]];
    var sh := Shape(children, tabs.Keys);
    assert WithTab(sh, id) == Shape(children', tabs'.Keys);
    FreshAbsent(tabs, folders, children, parent, id);
    AppendTabOrder(sh, rk, id);
    LinkedAppend(children, parent, Root, id);
    KeyedAppendTab(tabs, folders, children, parent, id, t);
    assert Flagged(tabs', activeTabId);
  }

  lemma WfRemoveTab(tabs: map<Id, Tab>, folders: map<Id, Folder>, children: map<Container, seq<Id>>,
                    parent: map<Id, Container>, activeTabId: Option<Id>, rk: Ranking,
                    id: Id, c: Container, k: nat)
    requires Wf(tabs, folders, children, parent, activeTabId, rk) && id in tabs
    requires c in children && k < |children[c]| && children[c][k] == id
    ensures var tabs', children' := tabs - {id}, Unlisted(children, c, k);
      Wf(tabs', folders, children', parent - {id}, activeTabId, rk) &&
      Order(Shape(children', tabs'.Keys), rk, Root) == Filter(Order(Shape(children, tabs.Keys), rk, Root), {id})
  {
    var sh, L := Shape(children, tabs.Keys), children[c];
    ParentIsContainer(tabs, folders, children, parent, c);
    RemoveTabOrder(sh, rk, id, c, k);
    LinkedRemove(children, parent, id, c, k);
    KeyedRemoveTab(tabs, folders, children, parent, id, c, L[..k] + L[k + 1..]);
    assert WithoutTab(sh, id, c, k) == Shape(Unlisted(children, c, k), (tabs - {id}).Keys);
  }

  lemma WfAppendFolder(tabs: map<Id, Tab>, folders: map<Id, Folder>, children: map<Container, seq<Id>>,
                       parent: map<Id, Container>, activeTabId: Option<Id>, rk: Ranking,
                       id: Id, c: Container, g: Folder) returns (rk': Ranking)
    requires Wf(tabs, folders, children, parent, activeTabId, rk) && id !in tabs && id !in folders
    requires c in children
    ensures Wf(tabs, folders[id := g], Planted(children, c, id), parent[id := c], activeTabId, rk')
    ensures Order(Shape(Planted(children, c, id), tabs.Keys), rk', Root) ==
            Order(Shape(children, tabs.Keys), rk, Root)
  {
    var sh := Shape(children, tabs.Keys);
    ParentIsContainer(tabs, folders, children, parent, c);
    rk' := RankFolder(rk, id, c);
    FreshAbsent(tabs, folders, children, parent, id);
    AppendFolderOrder(sh, rk, id, c);
    LinkedAppend(children, parent, c, id);
    LinkedEmpty(children[c := children[c] + [id]], parent[id := c], Content(id));
    var children' := Planted(children, c, id);
    KeyedAppendFolder(tabs, folders, children, parent, id, c, g);
    assert WithFolder(sh, id, c) == Shape(children', tabs.Keys);
  }

  lemma WfRefolder(tabs: map<Id, Tab>, folders: map<Id, Folder>, children: map<Container, seq<Id>>,
                   parent: map<Id, Container>, activeTabId: Option<Id>, rk: Ranking, id: Id, g: Folder)
    requires Wf(tabs, folders, children, parent, activeTabId, rk) && id in folders
    ensures Wf(tabs, folders[id := g], children, parent, activeTabId, rk)
  {
    assert Keyed(tabs, folders[id := g], children, parent);
  }

  lemma WfSplice(tabs: map<Id, Tab>, folders: map<Id, Folder>, children: map<Container, seq<Id>>,
                 parent: map<Id, Container>, activeTabId: Option<Id>, rk: Ranking,
                 f: Id, k: nat)
    requires Wf(tabs, folders, children, parent, activeTabId, rk) && f in folders
    requires k < |children[parent[f]]| && children[parent[f]][k] == f
    ensures parent[f] != Content(f)
    ensures parent[f] in children && Content(f) in children
    ensures var p := parent[f];
      var children' := Dissolved(children, f, p, k);
      Wf(tabs, folders - {f}, children', Reparent(parent, children[Content(f)], p) - {f}, activeTabId, rk) &&
      Order(Shape(children', tabs.Keys), rk, Root) == Order(Shape(children, tabs.Keys), rk, Root)
  {
    var sh, p := Shape(children, tabs.Keys), parent[f];
    var L, K := children[p], children[Content(f)];
    ParentIsContainer(tabs, folders, children, parent, p);
    forall d, i | d in children && 0 <= i < |children[d]| && children[d][i] == f
      ensures d == p && i == k
    {
      assert Distinct(children[p]);
    }
    assert OnlyAt(sh, f, p, k);
    SpliceOrder(sh, rk, f, p, k);
    LinkedSplice(children, parent, f, p, k);
    KeyedSplice(tabs, folders, children, parent, f, p, L[..k] + K + L[k + 1..], K);
    assert Splice(sh, f, p, k) == Shape(Dissolved(children, f, p, k), tabs.Keys);
  }
}
