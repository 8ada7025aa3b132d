/**
 * The renderer's state as one object: the tabs, the folders, the sidebar's
 * tree and `activeTabId`, updated in place by the handlers of renderer.js.
 */
module Renderer {
  import opened Wrappers
  import opened Layout
  import opened Sidebar
  import opened Edits
  import opened DocumentOrder
  import TabTitle
  import Navigation

  class Workspace {
    var tabs: map<Id, Tab>
    var folders: map<Id, Folder>
    var children: map<Container, seq<Id>>
    var parent: map<Id, Container>
    var activeTabId: Option<Id>
    ghost var ranking: Ranking

    /** The shape that document order depends on. */
    function Tree(): Shape
      reads this
    {
      Shape(children, tabs.Keys)
    }

    ghost predicate Valid()
      reads this
    {
      Wf(tabs, folders, children, parent, activeTabId, ranking)
    }

    /** The tabs in the order `document.querySelectorAll('.tab-item')` lists them. */
    function TabOrder(): (r: seq<Id>)
      reads this
      requires Valid()
      ensures Distinct(r) && forall t :: t in r <==> t in tabs
    {
      OrderListsTabs(tabs, folders, children, parent, ranking);
      Order(Shape(children, tabs.Keys), ranking, Root)
    }

    /** The tab whose view carries `active` (`getActiveWebview`): there is at most one. */
    function ActiveTab(): (r: Option<Id>)
      reads this
      requires Valid()
      ensures r.Some? ==> r.value in tabs && tabs[r.value].active && tabs[r.value].hasView
      ensures forall t :: t in tabs && tabs[t].active ==> r == Some(t)
    {
      if activeTabId.Some? && activeTabId.value in tabs && tabs[activeTabId.value].active
      then activeTabId else None
    }

    /** An empty sidebar. */
    constructor ()
      ensures Valid()
      ensures tabs == map[] && folders == map[] && children == map[Root := []] && activeTabId == None
      ensures TabOrder() == []
    {
      tabs, folders, children, parent, activeTabId := map[], map[], map[Root := []], map[], None;
      ranking := Ranking(map[], 0);
      new;
      assert Tree().children[Root] == [];
      assert TabOrder() == Flatten(Tree(), ranking, [], ranking.bound + 1);
    }

    /**
     * `activateTab`: every `active` flag is cleared; then, if the tab and its
     * view exist, the tab alone becomes active and `activeTabId` names it.
     */
    method ActivateTab(id: Id)
      requires Valid()
      modifies this`tabs, this`activeTabId
      ensures Valid()
      ensures tabs == Activated(old(tabs), id)
      ensures activeTabId == if Shown(old(tabs), id) then Some(id) else old(activeTabId)
      ensures TabOrder() == old(TabOrder())
    {
      WfActivated(tabs, folders, children, parent, activeTabId, ranking, id);
      ghost var sh := Tree();
      var cleared := ClearActive(tabs);
      if id in tabs && tabs[id].hasView {
        cleared := cleared[id := cleared[id].(active := true)];
        activeTabId := Some(id);
      }
      tabs := cleared;
      assert Tree() == sh;
    }

    /**
     * The first, synchronous half of `createNewTab`: a button titled
     * "New Tab" is appended to the top-level list; its view comes later.
     */
    method CreateTab(id: Id, url: string)
      requires Valid() && id !in tabs && id !in folders
      modifies this`tabs, this`children, this`parent
      ensures Valid()
      ensures tabs == old(tabs)[id := Tab(TabTitle.Placeholder, url, false, false)]
      ensures children == old(children)[Root := old(children)[Root] + [id]]
      ensures parent == old(parent)[id := Root]
      ensures TabOrder() == old(TabOrder()) + [id]
    {
      var t := Tab(TabTitle.Placeholder, url, false, false);
      WfAppendTab(tabs, folders, children, parent, activeTabId, ranking, id, t);
      tabs, children, parent := tabs[id := t], children[Root := children[Root] + [id]], parent[id := Root];
    }

    /**
     * The delayed half of `createNewTab`: the view of tab `id` is created,
     * and the tab is activated.
     */
    method BindView(id: Id)
      requires Valid() && id in tabs && !tabs[id].hasView
      modifies this`tabs, this`activeTabId
      ensures Valid()
      ensures tabs == Activated(old(tabs)[id := old(tabs)[id].(hasView := true)], id)
      ensures activeTabId == Some(id)
      ensures TabOrder() == old(TabOrder())
    {
      var t := tabs[id].(hasView := true);
      WfRetab(tabs, folders, children, parent, activeTabId, ranking, id, t);
      ghost var sh := Tree();
      tabs := tabs[id := t];
      assert Tree() == sh;
      ActivateTab(id);
    }

    /**
     * The delayed half of `closeTab`: the button and view of `id` are
     * removed, and `activeTabId` is cleared when no tab button is left.
     */
    method RemoveTab(id: Id)
      requires Valid() && id in tabs
      modifies this`tabs, this`children, this`parent, this`activeTabId
      ensures Valid()
      ensures tabs == old(tabs) - {id}
      ensures var c := old(parent)[id];
        children == Unlisted(old(children), c, FirstIndex(old(children)[c], id).value) &&
        parent == old(parent) - {id}
      ensures activeTabId == if |tabs| == 0 then None else old(activeTabId)
      ensures TabOrder() == Filter(old(TabOrder()), {id})
    {
      Detach(id);
      if |tabs| == 0 {
        activeTabId := None;
      }
    }

    /** `tabButton.remove()` and `webview.remove()`: tab `id` leaves its list and the tab set. */
    method Detach(id: Id)
      requires Valid() && id in tabs
      modifies this`tabs, this`children, this`parent
      ensures Valid()
      ensures tabs == old(tabs) - {id}
      ensures var c := old(parent)[id];
        children == Unlisted(old(children), c, FirstIndex(old(children)[c], id).value) &&
        parent == old(parent) - {id}
      ensures TabOrder() == Filter(old(TabOrder()), {id})
    {
      var c := parent[id];
      var k := FirstIndex(children[c], id).value;
      WfRemoveTab(tabs, folders, children, parent, activeTabId, ranking, id, c, k);
      tabs, children, parent := tabs - {id}, Unlisted(children, c, k), parent - {id};
    }

    /**
     * The synchronous half of `closeTab` for a tab that exists: when it is
     * the active one, the tab after it in document order (or else the one
     * before it) is activated.
     */
    method SwitchAway(id: Id)
      requires Valid()
      modifies this`tabs, this`activeTabId
      ensures Valid()
      ensures var next := if old(activeTabId) == Some(id) then Replacement(old(TabOrder()), id) else None;
        var switch := next.Some? && next.value != "";
        tabs == (if switch then Activated(old(tabs), next.value) else old(tabs)) &&
        activeTabId == (if switch && Shown(old(tabs), next.value) then next else old(activeTabId))
      ensures old(activeTabId) == Some(id) && id in old(tabs) ==>
        var all := old(TabOrder());
        FirstIndex(all, id).Some? &&
        var i := FirstIndex(all, id).value;
        Replacement(all, id) == (if i + 1 < |all| then Some(all[i + 1]) else if i > 0 then Some(all[i - 1]) else None)
      ensures TabOrder() == old(TabOrder())
    {
      if id in tabs {
        ReplacementInOrder(tabs, folders, children, parent, ranking, id);
      }
      var next: Option<Id> := None;
      if activeTabId == Some(id) {
        next := Replacement(TabOrder(), id);
      }
      if next.Some? && next.value != "" {
        ActivateTab(next.value);
      }
    }

    /**
     * `closeTab`: nothing happens unless the tab and its view exist;
     * otherwise the active tab moves away from it and then it is removed.
     */
    method CloseTab(id: Id)
      requires Valid()
      modifies this`tabs, this`children, this`parent, this`activeTabId
      ensures Valid()
      ensures !Shown(old(tabs), id) ==>
        tabs == old(tabs) && children == old(children) && parent == old(parent) &&
        activeTabId == old(activeTabId)
      ensures Shown(old(tabs), id) ==>
        var next := if old(activeTabId) == Some(id) then Replacement(old(TabOrder()), id) else None;
        var switch := next.Some? && next.value != "";
        tabs == (if switch then Activated(old(tabs), next.value) else old(tabs)) - {id} &&
        activeTabId == (if |tabs| == 0 then None
                        else if switch && Shown(old(tabs), next.value) then next
                        else old(activeTabId)) &&
        TabOrder() == Filter(old(TabOrder()), {id})
      ensures Shown(old(tabs), id) && old(activeTabId) == Some(id) ==>
        var all := old(TabOrder());
        FirstIndex(all, id).Some? &&
        var i := FirstIndex(all, id).value;
        Replacement(all, id) == (if i + 1 < |all| then Some(all[i + 1]) else if i > 0 then Some(all[i - 1]) else None)
      ensures Shown(old(tabs), id) ==>
        var c := old(parent)[id];
        children == Unlisted(old(children), c, FirstIndex(old(children)[c], id).value) &&
        parent == old(parent) - {id}
    {
      if !(id in tabs && tabs[id].hasView) {
        return;
      }
      SwitchAway(id);
      RemoveTab(id);
    }

    /** Ctrl+W: closes the tab `activeTabId` names, if it names one. */
    method CloseActiveTab()
      requires Valid()
      modifies this`tabs, this`children, this`parent, this`activeTabId
      ensures Valid()
      ensures var a := old(activeTabId);
        (a == None || a.value == "" || !Shown(old(tabs), a.value)) ==>
        tabs == old(tabs) && children == old(children) && parent == old(parent) &&
        activeTabId == old(activeTabId)
      ensures var a := old(activeTabId);
        a.Some? && a.value != "" && Shown(old(tabs), a.value) ==>
        var t := a.value;
        var next := Replacement(old(TabOrder()), t);
        var switch := next.Some? && next.value != "";
        tabs == (if switch then Activated(old(tabs), next.value) else old(tabs)) - {t} &&
        activeTabId == (if |tabs| == 0 then None
                        else if switch && Shown(old(tabs), next.value) then next
                        else a) &&
        TabOrder() == Filter(old(TabOrder()), {t})
      ensures var a := old(activeTabId);
        a.Some? && a.value != "" && Shown(old(tabs), a.value) ==>
        var all := old(TabOrder());
        FirstIndex(all, a.value).Some? &&
        var i := FirstIndex(all, a.value).value;
        Replacement(all, a.value) == (if i + 1 < |all| then Some(all[i + 1]) else if i > 0 then Some(all[i - 1]) else None)
      ensures var a := old(activeTabId);
        a.Some? && a.value != "" && Shown(old(tabs), a.value) ==>
        var c := old(parent)[a.value];
        children == Unlisted(old(children), c, FirstIndex(old(children)[c], a.value).value) &&
        parent == old(parent) - {a.value}
    {
      if activeTabId.Some? && activeTabId.value != "" {
        var t := activeTabId.value;
        CloseTab(t);
      }
    }

    /** `createNewFolder(c)`: a folder "New Folder", expanded and empty, is appended to `c`. */
    method NewFolder(id: Id, c: Container)
      requires Valid() && id !in tabs && id !in folders && c in children
      modifies this`folders, this`children, this`parent, this`ranking
      ensures Valid()
      ensures folders == old(folders)[id := Folder(NewFolderTitle, false)]
      ensures children == Planted(old(children), c, id)
      ensures parent == old(parent)[id := c]
      ensures TabOrder() == old(TabOrder())
    {
      var g := Folder(NewFolderTitle, false);
      ghost var ranking' := WfAppendFolder(tabs, folders, children, parent, activeTabId, ranking, id, c, g);
      folders, children, parent, ranking := folders[id := g], Planted(children, c, id), parent[id := c], ranking';
    }

    /** The context menu's "New Folder": always added to the top-level list. */
    method AddFolder(id: Id)
      requires Valid() && id !in tabs && id !in folders
      modifies this`folders, this`children, this`parent, this`ranking
      ensures Valid()
      ensures folders == old(folders)[id := Folder(NewFolderTitle, false)]
      ensures children == old(children)[Root := old(children)[Root] + [id]][Content(id) := []]
      ensures TabOrder() == old(TabOrder())
    {
      NewFolder(id, Root);
    }

    /** The context menu's "New Nested Folder": added inside `target` if that folder exists. */
    method AddNestedFolder(id: Id, target: Id)
      requires Valid() && id !in tabs && id !in folders
      modifies this`folders, this`children, this`parent, this`ranking
      ensures Valid()
      ensures target !in old(folders) ==> folders == old(folders) && children == old(children)
      ensures target in old(folders) ==>
        folders == old(folders)[id := Folder(NewFolderTitle, false)] &&
        children == old(children)[Content(target) := old(children)[Content(target)] + [id]][Content(id) := []]
      ensures TabOrder() == old(TabOrder())
    {
      if target in folders {
        NewFolder(id, Content(target));
      }
    }

    /**
     * The context menu's "Delete Folder": the folder's children move, in
     * order, to where the folder stood in its parent; then the folder goes.
     * Nothing happens if `id` names no folder.
     */
    method DeleteFolder(id: Id)
      requires Valid()
      modifies this`folders, this`children, this`parent
      ensures Valid()
      ensures id !in old(folders) ==>
        folders == old(folders) && children == old(children) && parent == old(parent)
      ensures id in old(folders) ==>
        var p := old(parent)[id];
        folders == old(folders) - {id} &&
        children == Dissolved(old(children), id, p, FirstIndex(old(children)[p], id).value) &&
        parent == Reparent(old(parent), old(children)[Content(id)], p) - {id}
      ensures TabOrder() == old(TabOrder())
    {
      if id in folders {
        Dissolve(id);
      }
    }

    /** Deleting a folder that exists. */
    method Dissolve(id: Id)
      requires Valid() && id in folders
      modifies this`folders, this`children, this`parent
      ensures Valid()
      ensures var p := old(parent)[id];
        folders == old(folders) - {id} &&
        children == Dissolved(old(children), id, p, FirstIndex(old(children)[p], id).value) &&
        parent == Reparent(old(parent), old(children)[Content(id)], p) - {id}
      ensures TabOrder() == old(TabOrder())
    {
      var p := parent[id];
      var k := FirstIndex(children[p], id).value;
      var ch, pa := DissolveFolder(children, parent, id, p, k);
      WfSplice(tabs, folders, children, parent, activeTabId, ranking, id, k);
      children, parent, folders := ch, pa, folders - {id};
    }

    /** A click on a folder header toggles `collapsed`, unless it lands on the title. */
    method ToggleCollapsed(id: Id, onTitle: bool)
      requires Valid() && id in folders
      modifies this`folders
      ensures Valid()
      ensures folders == if onTitle then old(folders)
                         else old(folders)[id := Toggled(old(folders)[id])]
    {
      if !onTitle {
        var g := Toggled(folders[id]);
        WfRefolder(tabs, folders, children, parent, activeTabId, ranking, id, g);
        folders := folders[id := g];
      }
    }

    /** Two clicks on a folder header leave it as it was. */
    method ToggleTwice(id: Id)
      requires Valid() && id in folders
      modifies this`folders
      ensures Valid()
      ensures folders == old(folders)
    {
      ToggledTwice(folders, id);
      ToggleCollapsed(id, false);
      ToggleCollapsed(id, false);
    }

    /** `did-stop-loading`: the tab's title becomes the cleaned page title. */
    method UpdateTitle(id: Id, pageTitle: string)
      requires Valid() && id in tabs && tabs[id].hasView
      modifies this`tabs
      ensures Valid()
      ensures tabs == old(tabs)[id := old(tabs)[id].(title := TabTitle.Clean(pageTitle))]
      ensures 0 < |tabs[id].title| <= TabTitle.MaxLength
    {
      var t := tabs[id].(title := TabTitle.Clean(pageTitle));
      WfRetab(tabs, folders, children, parent, activeTabId, ranking, id, t);
      tabs := tabs[id := t];
    }

    /** Enter in the spotlight box: non-empty input opens a new tab at the resolved address. */
    method SubmitSpotlight(id: Id, input: string)
      requires Valid() && id !in tabs && id !in folders
      modifies this`tabs, this`children, this`parent
      ensures Valid()
      ensures input == "" ==> tabs == old(tabs) && children == old(children) && parent == old(parent)
      ensures input != "" ==>
        tabs == old(tabs)[id := Tab(TabTitle.Placeholder, Navigation.ProcessUrl(input), false, false)] &&
        children == old(children)[Root := old(children)[Root] + [id]] &&
        parent == old(parent)[id := Root] &&
        TabOrder() == old(TabOrder()) + [id]
    {
      if input != "" {
        CreateTab(id, Navigation.ProcessUrl(input));
      }
    }

    /**
     * Enter in the address bar: the active view loads the resolved address,
     * or a new tab opens at it when no view is active.
     */
    method SubmitAddress(id: Id, input: string)
      requires Valid() && id !in tabs && id !in folders
      modifies this`tabs, this`children, this`parent
      ensures Valid()
      ensures old(ActiveTab()).Some? ==>
        var t := old(ActiveTab()).value;
        tabs == old(tabs)[t := old(tabs)[t].(url := Navigation.ProcessUrl(input))] &&
        children == old(children) && parent == old(parent)
      ensures old(ActiveTab()).None? ==>
        tabs == old(tabs)[id := Tab(TabTitle.Placeholder, Navigation.ProcessUrl(input), false, false)] &&
        children == old(children)[Root := old(children)[Root] + [id]] &&
        parent == old(parent)[id := Root] &&
        TabOrder() == old(TabOrder()) + [id]
    {
      var url := Navigation.ProcessUrl(input);
      var active := ActiveTab();
      if active.Some? {
        var t := tabs[active.value].(url := url);
        WfRetab(tabs, folders, children, parent, activeTabId, ranking, active.value, t);
        tabs := tabs[active.value := t];
      } else {
        CreateTab(id, url);
      }
    }
  }
}
