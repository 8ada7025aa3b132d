# Sidebar browser renderer, modelled in Dafny

This project models the core of `renderer.js`, the renderer process of a small Electron
browser with a vertical sidebar of tabs and nestable folders. It has two parts.

**Address resolution and tab captions** are pure string logic:

- `processUrl` turns what is typed into the address bar or the spotlight box into either a
  Google search URL or an address to load. It is modelled in `navigation.dfy`.
- `encodeURIComponent` is modelled in `uri_encoding.dfy`, following section 19.2.6.5 of
  ECMA-262: UTF-8 octets written as `%XY` with upper-case hexadecimal digits.
- The domain regular expression `/^([a-z0-9]+(-[a-z0-9]+)*\.)+[a-z]{2,}$/i` is modelled as
  a recursive predicate. It is proved equal to the language the regex describes.
- The caption a tab shows once its page stops loading is modelled in `tab_title.dfy`.

**The workspace** is the tree of tab buttons and folders in the sidebar, the page view
bound to each tab, and the global `activeTabId`. The program keeps this tree in the DOM.
The model keeps it as an arena:

- One ordered child list per container: the top-level `tabList`, or one folder's content
  area.
- A `parent` map standing for `parentElement`.
- Maps from ids to tab records and to folder records.

The modules are layered:

- `layout.dfy` defines *document order*: the order in which
  `document.querySelectorAll('.tab-item')` lists tab buttons, with a folder's content right
  after its header. It proves how appending a tab, appending a folder, removing a tab and
  dissolving a folder change that order.
- `sidebar.dfy` holds the records and the selection rule of `closeTab`. It also holds the
  loops of `activateTab` (clearing `active`) and of the folder-delete handler (moving
  children one by one), as methods proved against functions.
- `document_order.dfy` proves that in a well-formed workspace document order lists every
  tab exactly once. The proof follows each node up through the folders that hold it.
- `edits.dfy` states the well-formedness of the whole workspace and proves that each edit
  keeps it.
- `renderer.dfy` is the class `Workspace`. Its methods are the renderer's handlers, and
  they update its fields in place.

Well-formedness says the following:

- Tabs and folders are told apart.
- Every node sits exactly once in the child list of its parent.
- Folders do not nest in a cycle. A proof-only ranking witnesses this.
- A tab is `active` only if its view exists and `activeTabId` names it, so at most one tab
  is active.

`activeTabId` itself is not required to name an existing tab. Suppose the program closes
the active tab while the tab next to it has no view yet. `activateTab` then returns early,
and `activeTabId` keeps naming the closed tab. The model keeps that behaviour.

Where the code and the written design of the program disagree, the model follows the code:

- There are no internal pages (no reserved scheme).
- Only a space character sends input to search, not other whitespace.
- Only `http://`, `https://` and `file://` count as a scheme, not `data:`.
- `localhost:8080` therefore becomes `https://localhost:8080`.
- Closing the last tab sets `activeTabId` to null. It does not open a default tab.
- Closing an unknown tab, or one without a view, changes nothing.
- The title removes the first `" - Google Search"` wherever it occurs, not only a trailing
  one.
- The context menu's "New Folder" always appends to the top-level list. The container the
  menu was opened on is computed but never used.

## Model

| member | source | states |
|---|---|---|
| Navigation.ProcessUrl | renderer.js:59-71 | every result starts with `http://`, `https://` or `file://` and holds no space; it is the search URL for the input, the input itself, or `https://` followed by the input |
| Navigation.ProcessUrlSearches | renderer.js:60-70 | the result is the Google search URL exactly when the input has a space or does not look like an address (domain-shaped, starting with `localhost`, or containing `://`) |
| Navigation.ProcessUrlAddresses | renderer.js:63-68 | space-free input that looks like an address comes back unchanged when it has a known scheme, and with `https://` in front otherwise |
| Navigation.ProcessUrlKeepsAddresses | renderer.js:64-68 | space-free input that already starts with a known scheme comes back unchanged |
| Navigation.ProcessUrlIdempotent | renderer.js:59-71 | resolving an already resolved address changes nothing |
| Navigation.ProcessUrlLocalhost | renderer.js:64-66 | `localhost:8080` becomes `https://localhost:8080` |
| Navigation.ProcessUrlBareDomain | renderer.js:63-66 | `example.com` passes the domain test and becomes `https://example.com` |
| Navigation.ProcessUrlIpAddress | renderer.js:63-70 | `192.168.0.1` fails the domain test (its last part is not letters) and becomes a search |
| Navigation.DomainShapedIsRegex | renderer.js:63 | the recursive domain test accepts exactly the strings made of one or more dot-terminated labels followed by two or more letters |
| Navigation.SearchUrl | renderer.js:61 | a search URL starts with `https://`, holds no space, and is at least as long as the prefix plus the query |
| UriEncoding.Encode | renderer.js:61 | the encoding is at least as long as its input, uses only unescaped characters, `%` and upper-case hex digits (so no space), and leaves a string of unescaped characters unchanged |
| UriEncoding.EncodeChar | renderer.js:61 | a character is kept as it is exactly when it is in the unescaped set; otherwise it becomes one `%XY` per UTF-8 octet, in order |
| Text.IndexOfFrom | renderer.js:204 | `indexOf` reports an occurrence at or after the start, and none before it; `None` means there is no occurrence |
| Text.RemoveFirst | renderer.js:204 | a string `replace` with a string pattern leaves the input alone when the pattern is absent, and otherwise cuts exactly one copy at its first occurrence |
| Text.Prefix | renderer.js:205 | `substring(0, n)` is a prefix of exactly `n` characters, or the whole string when it is shorter (characters are code points) |
| TabTitle.Clean | renderer.js:204-205 | with the first `" - Google Search"` removed from the title, the caption is "New Tab" when nothing is left, and otherwise the prefix of what is left of length 25, or all of it when shorter; it always has 1 to 25 characters |
| TabTitle.RemoveFirstSuffix | renderer.js:204 | in `q + " - Google Search" + rest`, with no suffix inside `q`, only the copy after `q` is removed |
| TabTitle.CleanSearchTitle | renderer.js:204-205 | a results page titled `q - Google Search` shows `q` cut to 25 characters, or "New Tab" when `q` is empty |
| TabTitle.CleanPlainTitle | renderer.js:204-205 | a non-empty title without the suffix is shown cut to 25 characters |
| Sidebar.Toggled | renderer.js:246-249 | a header click flips `collapsed` and keeps the title |
| Sidebar.ToggledTwice | renderer.js:248 | toggling the same folder twice restores the folder map |
| Sidebar.FirstIndex | renderer.js:82 | `findIndex` gives the first position holding the id, or none when the id is absent |
| Sidebar.Replacement | renderer.js:79-92 | a replacement exists exactly when the closed tab is listed and at least one other tab is, and it is one of the listed tabs |
| Sidebar.ReplacementAt | renderer.js:84-91 | in a list without repeats, the tab at position `i` is replaced by the one after it, or by the one before it when it is last, and never by itself |
| Sidebar.Cleared | renderer.js:113-118 | every tab keeps its record with `active` off, and no tab is added or lost |
| Sidebar.ClearActive | renderer.js:113-118 | the loop over the active tabs ends with every tab's `active` flag cleared and nothing else changed |
| Sidebar.Activated | renderer.js:112-126 | after activation exactly the named tab is active when its button and view exist, and none otherwise; nothing else changes |
| Sidebar.OneActive | renderer.js:112-139 | in a workspace whose flags agree with `activeTabId`, two active tabs are the same tab |
| Sidebar.MoveChildren | renderer.js:510-512 | the `while` loop moves the content area's children, in order, in front of the header and leaves the content area empty; exactly those children are reparented |
| Sidebar.DissolveFolder | renderer.js:508-514 | after the loop and the two removals, the parent's list is the old list with the folder replaced by its children in order; the content area and the folder are gone |
| Sidebar.LinkedAppend | renderer.js:252 | appending a fresh node to a container keeps each node once in the list of its parent |
| Sidebar.LinkedRemove | renderer.js:101 | removing a node from its list keeps each remaining node once in the list of its parent |
| Sidebar.LinkedSplice | renderer.js:508-514 | dissolving a folder keeps each remaining node once in the list of its (possibly new) parent |
| DocumentOrder.OrderListsTabs | renderer.js:81 | in a well-formed workspace, document order holds no tab twice, and it holds exactly the tabs |
| DocumentOrder.ChainParents | renderer.js:508-511 | no two of the folders enclosing a node (with the node itself) sit in the same container, so sibling subtrees hold different tabs |
| DocumentOrder.ReplacementInOrder | renderer.js:81-91 | every tab has a position in document order, and the tab chosen when it closes is the one right after it, else the one right before it, and never itself |
| Layout.AppendTabOrder | renderer.js:176 | a tab appended to the top-level list comes last in document order, after all the old tabs in their old order |
| Layout.AppendFolderOrder | renderer.js:252-253 | appending an empty folder anywhere keeps the ranking valid and leaves document order unchanged |
| Layout.RemoveTabOrder | renderer.js:101 | removing a tab's button from any container takes exactly that tab out of document order |
| Layout.SpliceOrder | renderer.js:508-514 | replacing a folder by its children at its position leaves document order unchanged |
| Edits.WfActivated | renderer.js:112-139 | activation keeps the workspace well formed, with `activeTabId` set exactly when the tab is shown |
| Edits.WfRetab | renderer.js:204-205 | changing one tab's record (title, address, view) keeps the workspace well formed when its flag stays consistent |
| Edits.WfAppendTab | renderer.js:176 | appending a new tab keeps the workspace well formed and adds it last in document order |
| Edits.WfRemoveTab | renderer.js:101-102 | removing a tab keeps the workspace well formed and takes only that tab out of document order |
| Edits.WfAppendFolder | renderer.js:252-253 | appending a new empty folder keeps the workspace well formed and document order unchanged |
| Edits.WfRefolder | renderer.js:248 | changing a folder's record keeps the workspace well formed |
| Edits.WfSplice | renderer.js:508-514 | deleting a folder keeps the workspace well formed and document order unchanged |
| Renderer.Workspace.constructor | renderer.js:44-45 | the workspace starts with no tabs, no folders, an empty top-level list and a null `activeTabId` |
| Renderer.Workspace.TabOrder | renderer.js:81 | the tab buttons `querySelectorAll('.tab-item')` lists, in document order: each tab exactly once, and nothing else |
| Renderer.Workspace.ActiveTab | renderer.js:52-54 | the active view is the only tab carrying `active`, and that tab has its view |
| Renderer.Workspace.ActivateTab | renderer.js:112-140 | every flag is cleared; a shown tab becomes the only active one and `activeTabId` names it; otherwise `activeTabId` is unchanged; document order is unchanged |
| Renderer.Workspace.CreateTab | renderer.js:143-177 | a new tab titled "New Tab", with no view yet and not active, is appended to the top-level list and comes last in document order |
| Renderer.Workspace.BindView | renderer.js:180-218 | the tab gets its view and becomes the only active tab, and `activeTabId` names it |
| Renderer.Workspace.SwitchAway | renderer.js:79-96 | when the closing tab is the active one, the tab right after it in document order (else the one right before it) is activated; otherwise nothing changes |
| Renderer.Workspace.Detach | renderer.js:101-102 | the tab leaves its container's list and the tab map, and only it leaves document order |
| Renderer.Workspace.RemoveTab | renderer.js:100-109 | the tab is removed; `activeTabId` becomes null when no tab is left and is otherwise unchanged |
| Renderer.Workspace.CloseTab | renderer.js:73-110 | an unknown or viewless tab changes nothing; otherwise, if the tab was active, the tab after it in document order (else the one before it) is activated, then only that tab is removed from the list and from document order, and `activeTabId` is null once no tab is left |
| Renderer.Workspace.CloseActiveTab | renderer.js:317-321 | Ctrl+W changes nothing when `activeTabId` is null, empty, or names a tab that is not shown; otherwise that tab is closed exactly as `closeTab` closes it: the next tab in document order (else the previous) is activated, the tab leaves its list, the tab map and the order, and `activeTabId` is nulled only when no tab is left |
| Renderer.Workspace.NewFolder | renderer.js:221-253 | a folder titled "New Folder", expanded and with an empty content area, is appended to the container, and document order is unchanged |
| Renderer.Workspace.AddFolder | renderer.js:472-475 | the new folder is always appended to the top-level list |
| Renderer.Workspace.AddNestedFolder | renderer.js:477-484 | the new folder is appended inside the target folder when it exists; otherwise nothing changes |
| Renderer.Workspace.DeleteFolder | renderer.js:503-517 | an unknown folder changes nothing; otherwise its children take its place, in order, in its parent, the folder is removed, and document order is unchanged |
| Renderer.Workspace.Dissolve | renderer.js:508-515 | for an existing folder, the same new state as `DeleteFolder` |
| Renderer.Workspace.ToggleCollapsed | renderer.js:246-249 | a click outside the title flips `collapsed`; a click on the title changes nothing |
| Renderer.Workspace.ToggleTwice | renderer.js:248 | two clicks on a header leave the folders as they were |
| Renderer.Workspace.UpdateTitle | renderer.js:193-207 | the tab's title becomes the cleaned page title, between 1 and 25 characters long |
| Renderer.Workspace.SubmitSpotlight | renderer.js:296-303 | empty input does nothing; otherwise a new tab at the resolved address is appended to the top-level list and comes last in document order |
| Renderer.Workspace.SubmitAddress | renderer.js:334-346 | the active view, if any, gets the resolved address and the tree is unchanged; otherwise a new tab opens at it, appended to the top-level list and last in document order |

## Left out

- main.js, the Electron window and its IPC handlers: platform plumbing with no logic of its own.
- Drag-and-drop reordering: it happens inside the third-party `sortablejs` library, whose code is not part of this model. No move operation or acyclicity check is modelled.
- Webview internals (`getURL`, `getTitle`, `canGoBack`, `canGoForward`, `goBack`, `reload`, `stop`): the page title is a parameter of `UpdateTitle`. `loadURL` is modelled as the tab's `url` field being set to the resolved address.
- The URL bar text, back/forward button states and the reload/stop toggle are display state and are not modelled.
- Timers: `closeTab`'s 200 ms delay and `createNewTab`'s 50 ms delay become separate steps. These are `SwitchAway` then `RemoveTab`, and `CreateTab` then `BindView`. Other events between the two steps are not modelled.
- `Date.now()` ids: ids are supplied by the caller and required to be new. Nothing is claimed about the uniqueness the clock gives.
- TabTitle.Clean: lengths are counted in Unicode code points, because a Dafny string holds code points. JavaScript's `substring` counts UTF-16 code units, so for a title with characters outside the Basic Multilingual Plane (emoji, for instance) the program keeps fewer characters, and may split a surrogate pair, where the model keeps 25 whole characters.
- Text.Prefix: counts code points rather than UTF-16 code units, for the same reason.
- UriEncoding.Encode: a string holding a lone surrogate cannot be represented, because a Dafny string holds only Unicode scalar values. So the `URIError` that `encodeURIComponent` throws on such input is not modelled.
- The `closing` class added before removal is not modelled, since the tab is removed in the next step.
- Folder renaming (contenteditable), the spotlight overlay's visibility, the context menu's position, the sidebar resizer, theme and colour settings: UI only.
- A tab's button and its view always carry `active` together, so one flag per tab stands for both.
- History, bookmarks, sessions, closed-tab restore and incognito mode do not appear in the code.
