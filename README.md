# x-tabs container, modelled in Dafny

This project models the `Tabs` custom element (`x-tabs`) of
src/web-components/Tabs.js. The element keeps a strip of tab handles (`li`
elements in a `<ul>`) in step with the `x-tab` panes of its subtree. Its state
is:

- the registry: `tabMap` (tab to pane), `paneMap` (pane to tab), `wrapperMap`
  (the element a pane arrived inside) and `displayMap` (each pane's inline
  display when its tab was made);
- the selection: `selected`, written by `setTabStatus`;
- the parts of the DOM it writes: the strip, each tab's `active` class, close
  button and label, and each pane's `style.display` and `active` attribute.

Nodes, panes and tabs are natural-number ids. A fresh tab is `nextTab`, which
grows by one per `makeTab`.

Modules:

- `Dom` holds the node trees of mutation records and of the element's
  subtree. `querySelectorAll('x-tab')` is `PanesIn` and
  `querySelector('x-tab')` is `FindPane`.
- `Model` holds the container as the value `State`, and the registry
  invariant `Valid`: the strip lists each tab of `tabMap` once, the two maps
  are inverse, and every registered pane has a display snapshot.
- `Selection` holds makeActive, makeInactive and setTabStatus as functions,
  with their lemmas.
- `Registry` holds makeTab, handleClosable, handleTitle, _addTab, _removeTab
  and createTabs as functions, with their lemmas.
- `Reconciler` holds handleMutations: the `handlers` list built from a batch,
  the classification of each node, and the run of the handlers.
- `Dispatch` holds handleEvent and the cancelable close protocol of closeTab.
- `TabsElement` holds the class `Tabs`. It has the element's fields, and its
  methods update them in place with the source's own loops. Each method is
  proved to produce `Abs()`, which is exactly what the Selection, Registry,
  Reconciler and Dispatch functions give for the old state.
- `Scenarios` holds whole-container consequences that span several
  operations.

Behaviour of the source a reader might not expect; the model follows the
source:

- **At most one tab is active right after setTabStatus or an active
  _addTab; otherwise none, or several.** At most one active tab and pane is
  proved right after a setTabStatus with a new argument (Tabs.js:213-228) or
  an _addTab of a pane with `active` (Tabs.js:76-83). At other times:
  - a pane added without `active` is made inactive and hidden, even as the
    only pane (Tabs.js:84-86), so no tab may be active;
  - createTabs leaves a later pane's own `active` attribute, so after the
    initial scan several registered panes can carry `active`
    (Tabs.js:152-156). Removing such a hidden pane still runs the fallback
    setTabStatus of _removeTab (Tabs.js:98-101);
  - _addTab and createTabs never write `selected`.
- **Only the initial scan activates its first pane.** createTabs makes the
  first pane active and hides the rest (Tabs.js:152-156). Panes inserted
  later without `active` all start hidden (Tabs.js:84-86).
- **A wrapper's pane is found at any depth.** `querySelector('x-tab')`
  (Tabs.js:121) searches every descendant of the added or removed element.
- **A close or removal of an unregistered tab or pane throws.** It reads a
  property of `undefined`:
  - closeTab of a tab with no pane gives `Fails`, unless the close is vetoed
    (Tabs.js:52-58);
  - inside handleMutations the batch stops at such a removal, and
    `completed` is false (Tabs.js:91-92, 130);
  - `_removeTab` called directly requires a registered pane.
- **The wrapper entry is not cleared on removal.** `_removeTab` leaves the
  pane's `wrapperMap` entry behind. The reconciler and the class model the
  removal as written; the corrected removal, `Registry.RemoveTab`, stands
  beside it with its own lemmas (see Findings).

## Model

| member | source | states |
|---|---|---|
| TabsElement.Tabs.constructor | src/web-components/Tabs.js:1-9 | a new element has no selection, empty maps, an empty strip, and satisfies the registry invariant |
| Model.Initial | src/web-components/Tabs.js:2-9 | the initial state satisfies the invariant, with an empty strip and no selection |
| Model.LastTab | src/web-components/Tabs.js:99 | `ul li:last-child` is None exactly when the strip is empty, and otherwise a tab of the strip |
| Model.ValidStripRegistered | src/web-components/Tabs.js:5-8 | under the invariant every tab of the strip and of tabMap has a pane with a display snapshot |
| Selection.MakeActive | src/web-components/Tabs.js:198-204 | the tab gains the class, its pane gets exactly its snapshotted display and `active`, no other pane changes, the registry is untouched |
| Selection.MakeInactive | src/web-components/Tabs.js:206-211 | the tab loses the class, its pane gets display `none` and loses `active`, no other pane changes |
| Selection.ActivateRoundTrip | src/web-components/Tabs.js:194-211 | activate, deactivate, activate gives the state of the first activation, with the display equal to the snapshot |
| Selection.StatusStep | src/web-components/Tabs.js:221-227 | one iteration of the status loop: the chosen tab is made active, any other inactive; what it does to the `selected` field and to the panes is stated by Selection.StatusStepSelected and Selection.ApplyStatusPanes |
| Selection.ApplyStatus | src/web-components/Tabs.js:221-227 | the status loop over a list of registered tabs, in order; it never changes the registry (maps, strip, snapshots, counter); its effect on classes and panes is Selection.ApplyStatusClasses and Selection.ApplyStatusPanes |
| Selection.ApplyStatusClasses | src/web-components/Tabs.js:221-227 | the loop leaves the `active` class on the chosen tab alone among the tabs it visits, other tabs' classes unchanged |
| Selection.ApplyStatusPanes | src/web-components/Tabs.js:221-227 | the loop leaves each visited tab's pane activated or deactivated as that tab is or is not the chosen one, other panes unchanged |
| Selection.ApplyStatusSelected | src/web-components/Tabs.js:218-227 | the loop does not depend on `selected`, so setting it first is the same as setting it after |
| Selection.SetTabStatus | src/web-components/Tabs.js:213-228 | setTabStatus(a): only `selected`, the classes and the pane attributes can change, and every strip tab stays registered; Selection.SetTabStatusNoop, SetTabStatusFrame and SetTabStatusEffect state the rest |
| Selection.SetTabStatusNoop | src/web-components/Tabs.js:214-216 | setTabStatus with the selected tab changes nothing |
| Selection.SetTabStatusFrame | src/web-components/Tabs.js:213-228 | with a new argument, `selected` becomes it; only classes and pane attributes change; the invariant holds |
| Selection.SetTabStatusEffect | src/web-components/Tabs.js:213-228 | tab `a` alone in the strip is active, shown with its snapshot; every other strip tab's pane is hidden; unregistered panes untouched |
| Selection.SetTabStatusAtMostOneActive | src/web-components/Tabs.js:213-228 | after setTabStatus with a new argument at most one strip tab and at most one registered pane are active |
| Selection.SelectShows | src/web-components/Tabs.js:213-228 | selecting `a` shows a's pane with its snapshot and `active`, and hides any other strip tab's pane |
| Selection.SelectRoundTrip | src/web-components/Tabs.js:194-228 | selecting A, B, then A shows A's pane with exactly its snapshotted display and hides B's |
| TabsElement.Tabs.MakeActive | src/web-components/Tabs.js:198-204 | the in-place update is Selection.MakeActive of the old state |
| TabsElement.Tabs.MakeInactive | src/web-components/Tabs.js:206-211 | the in-place update is Selection.MakeInactive of the old state |
| TabsElement.Tabs.SetTabStatus | src/web-components/Tabs.js:213-228 | the in-place update is Selection.SetTabStatus of the old state, and the invariant is kept |
| TabsElement.Tabs.WalkTabs | src/web-components/Tabs.js:221-227 | the loop over a list of tabs gives ApplyStatus of the old state; it is shared with the loop of _addTab |
| Registry.HandleClosable | src/web-components/Tabs.js:167-179 | handleClosable with the default argument `paneMap.get(pane)`; its properties are Registry.HandleClosableOnSyncs, Registry.HandleClosableSyncs and Registry.HandleClosableValid |
| Registry.HandleClosableOnSyncs | src/web-components/Tabs.js:167-179 | after handleClosable the tab has a close button iff the pane is closable; other tabs and all else unchanged |
| Registry.HandleClosableSyncs | src/web-components/Tabs.js:167-179 | with the default tab, a registered pane's own tab is synced and kept; an unregistered pane changes nothing |
| Registry.HandleClosableValid | src/web-components/Tabs.js:167-179 | handleClosable on no tab, or on a tab already handed out, keeps the registry invariant |
| TabsElement.Tabs.HandleClosable | src/web-components/Tabs.js:167-179 | the in-place update is Registry.HandleClosable, and the invariant is kept |
| Registry.MakeTab | src/web-components/Tabs.js:181-196 | makeTab(pane): one fresh tab, with close button, label and display snapshot; its properties are Registry.MakeTabEffect |
| Registry.MakeTabEffect | src/web-components/Tabs.js:181-196 | a fresh tab gets the label `getAttribute('title') \|\| title` and a close button iff closable; the pane's display is snapshotted; `tabMap`, `paneMap` and `wrapperMap` untouched |
| TabsElement.Tabs.MakeTab | src/web-components/Tabs.js:181-196 | returns the fresh tab, and the in-place update is Registry.MakeTab |
| Registry.HandleTitle | src/web-components/Tabs.js:135-141 | handleTitle(panel, title); its properties are Registry.HandleTitleLastWins and Registry.HandleTitleValid |
| Registry.HandleTitleLastWins | src/web-components/Tabs.js:135-141 | only the registered pane's tab label changes, to `title \|\| panel.title`; a later title overrides an earlier one |
| Registry.HandleTitleValid | src/web-components/Tabs.js:135-141 | handleTitle keeps the registry invariant |
| TabsElement.Tabs.HandleTitle | src/web-components/Tabs.js:135-141 | the in-place update is Registry.HandleTitle, and the invariant is kept |
| Registry.Register | src/web-components/Tabs.js:69-74 | makeTab followed by the map updates of _addTab; Registry.RegisterEffect states its effect |
| Registry.RegisterEffect | src/web-components/Tabs.js:69-74 | after Register the fresh tab maps to the pane and back, the wrapper is recorded only when given, the label, close button and snapshot are set, and strip, selection and panes are untouched |
| Registry.AddStatus | src/web-components/Tabs.js:76-86 | the activation half of _addTab changes neither the registry nor the selection |
| Registry.AddTab | src/web-components/Tabs.js:63-88 | _addTab(pane, wrapper); its properties are Registry.AddTabIdempotent, AddTabRegisters, AddTabActivates, AddTabLeavesOthers and AddTabSteps |
| Registry.AddTabIdempotent | src/web-components/Tabs.js:63-66 | adding a registered pane changes nothing, so adding a pane twice is adding it once |
| Registry.AddTabRegisters | src/web-components/Tabs.js:63-88 | a new pane's fresh tab is appended to the strip and registered in both maps; the wrapper is recorded only when given; selection untouched; the invariant holds |
| Registry.AddTabActivates | src/web-components/Tabs.js:76-83 | a new `active` pane's tab is the only active tab of the strip, its pane the only active registered pane, shown with its own display |
| Registry.AddTabLeavesOthers | src/web-components/Tabs.js:84-86 | a new pane without `active` is made inactive and hidden; no other tab or pane changes |
| Registry.AddTabSteps | src/web-components/Tabs.js:63-88 | _addTab of a new pane is makeTab with the map updates, then the activation half over strip and new tab, then the append; the invariant holds |
| TabsElement.Tabs.AddTab | src/web-components/Tabs.js:63-88 | the in-place update is Registry.AddTab, and the invariant is kept |
| TabsElement.Tabs.Register | src/web-components/Tabs.js:69-74 | returns the fresh tab; the update is Registry.Register |
| TabsElement.Tabs.SetAddedStatus | src/web-components/Tabs.js:76-86 | the update is Registry.AddStatus |
| Registry.Without | src/web-components/Tabs.js:92 | the strip after `tab.parentNode.removeChild(tab)`; its properties are Registry.WithoutMembers and Registry.WithoutAt |
| Registry.WithoutMembers | src/web-components/Tabs.js:92 | removing a tab from the strip keeps exactly the other tabs |
| Registry.WithoutAt | src/web-components/Tabs.js:92 | in a strip without repeats, removing the tab at `i` splices out position `i`, keeping the order of the rest |
| Registry.Detach | src/web-components/Tabs.js:91-96 | the tab leaves the strip and both maps, the display snapshot is dropped; the invariant holds |
| TabsElement.Tabs.Detach | src/web-components/Tabs.js:91-96 | the in-place update is Registry.Detach |
| Registry.Reselect | src/web-components/Tabs.js:98-101 | the fallback selection changes only selection, classes and pane attributes, and keeps the invariant |
| Registry.RemoveTabAsWritten | src/web-components/Tabs.js:90-102 | _removeTab as written: Detach plus the fallback selection; nothing else changes |
| Registry.RemoveTab | src/web-components/Tabs.js:90-102 | _removeTab with the wrapper entry also deleted keeps the invariant |
| Registry.RemoveTabClearsWrapper | src/web-components/Tabs.js:90-102 | as written the wrapper map is unchanged; corrected, exactly the removed pane's entry is gone |
| Registry.RemoveTabUnregisters | src/web-components/Tabs.js:90-96 | as written, the tab is spliced out of the strip keeping order, the pane's entries leave `tabMap`, `paneMap` and `displayMap`, and `wrapperMap` is unchanged; the invariant holds |
| Registry.RemoveTabFallback | src/web-components/Tabs.js:98-101 | removing a non-active pane changes no selection state; removing an active one passes the last tab to setTabStatus, which makes it the only active tab shown with its snapshot, or does nothing if it is already selected |
| TabsElement.Tabs.RemoveTab | src/web-components/Tabs.js:90-102 | the in-place update is Registry.RemoveTabAsWritten, so the wrapper entry stays, and the invariant is kept |
| Registry.AddTabKeepsWrappers | src/web-components/Tabs.js:63-88 | _addTab keeps every recorded wrapper attached to a registered pane |
| Registry.RemoveTabKeepsWrappers | src/web-components/Tabs.js:90-102 | the corrected _removeTab keeps every recorded wrapper attached to a registered pane |
| Registry.RemoveTabAsWrittenLeavesWrapper | src/web-components/Tabs.js:90-102 | as written, removing a pane that came with a wrapper leaves its wrapper recorded for an unregistered pane |
| Registry.AddRemoveRoundTrip | src/web-components/Tabs.js:63-102 | adding a new pane and removing it restores strip, both maps and display snapshots; as written the wrapper the pane came with stays recorded, and with the corrected removal none of the pane is left |
| Registry.CreateOne | src/web-components/Tabs.js:147-156 | one pass of the createTabs loop; Registry.CreateOneValid and Registry.CreateTabsCreated state its effect |
| Registry.CreateOneValid | src/web-components/Tabs.js:146-157 | one pass of the createTabs loop over an unregistered pane keeps the invariant |
| Registry.CreateTabsSnoc | src/web-components/Tabs.js:146-157 | createTabs over one more pane is one more pass of the loop |
| Registry.CreateTabs | src/web-components/Tabs.js:143-158 | createTabs over the panes of `querySelectorAll('x-tab')`; its properties are Registry.CreateTabsCreated and Registry.CreateTabsValid |
| Registry.CreateTabsCreated | src/web-components/Tabs.js:143-158 | createTabs appends one fresh tab per pane in document order and registers each with its snapshot; only the first pane is activated, the rest get display `none`; `selected` and the wrappers are untouched |
| Registry.CreateTabsValid | src/web-components/Tabs.js:143-158 | createTabs over distinct unregistered panes keeps the invariant and registers exactly those panes |
| TabsElement.Tabs.CreateTabs | src/web-components/Tabs.js:143-158 | the loop over `querySelectorAll('x-tab')` gives Registry.CreateTabs; on a first scan (invariant held, panes distinct and without a tab) the invariant is kept |
| TabsElement.Tabs.CreateOne | src/web-components/Tabs.js:147-156 | one pass of the loop is Registry.CreateOne |
| Dom.PanesIn | src/web-components/Tabs.js:145 | `querySelectorAll('x-tab')` over node lists, in document order; its properties are Dom.PanesInAppend and Dom.NestedPaneIsListed |
| Dom.FindPane | src/web-components/Tabs.js:121 | `querySelector('x-tab')`; Dom.FindPaneIsFirstOfPanesIn ties it to Dom.PanesIn |
| Dom.FindPaneIsFirstOfPanesIn | src/web-components/Tabs.js:121 | querySelector finds nothing iff querySelectorAll finds nothing, and otherwise its first result |
| Dom.NestedPaneIsListed | src/web-components/Tabs.js:145 | a pane anywhere below the subtrees is found by querySelectorAll |
| Dom.PanesInAppend | src/web-components/Tabs.js:145 | querySelectorAll over joined node lists is the join of the results |
| Reconciler.RecordHandlersOrder | src/web-components/Tabs.js:106-111 | a childList record yields its added nodes in order, then its removed nodes; other records yield nothing |
| Reconciler.Tagged | src/web-components/Tabs.js:108-109 | one handler per node, in order, with the given kind |
| Reconciler.Handlers | src/web-components/Tabs.js:105-111 | the `handlers` list of a batch; its properties are Reconciler.RecordHandlersOrder and Reconciler.HandlersAppend |
| Reconciler.HandlersAppend | src/web-components/Tabs.js:105-111 | the handlers of joined batches are the joined handlers: records kept in order, never merged |
| TabsElement.Tabs.CollectHandlers | src/web-components/Tabs.js:105-111 | the first loop builds Reconciler.Handlers of the batch |
| TabsElement.Tabs.PushAll | src/web-components/Tabs.js:108-109 | pushing every node appends the tagged nodes |
| Reconciler.Classify | src/web-components/Tabs.js:114-125 | the classification of one handler node; its properties are Reconciler.ClassifyCases and Reconciler.ClassifyWrapper |
| Reconciler.ClassifyCases | src/web-components/Tabs.js:114-125 | a node is skipped iff it is no element or a non-pane with no pane inside; a pane acts on itself with no wrapper; a wrapper acts on its first nested pane |
| Reconciler.ClassifyWrapper | src/web-components/Tabs.js:118-128 | an add passes a wrapper iff the changed node is not a pane, and then the wrapper is that node |
| Reconciler.Step | src/web-components/Tabs.js:127-131 | one action keeps the invariant, and fails exactly for the removal of an unregistered pane; a removal is _removeTab as written, keeping the wrapper entry |
| Reconciler.Run | src/web-components/Tabs.js:113-132 | running the handlers in order keeps the registry invariant; Reconciler.RunAppend and Reconciler.IrrelevantBatch state how it composes and what it skips |
| Reconciler.HandleMutations | src/web-components/Tabs.js:104-133 | handleMutations keeps the registry invariant; its effect is stated by Reconciler.HandleMutationsSplit, AddOne and RemoveOne |
| Reconciler.RunAppend | src/web-components/Tabs.js:113-132 | running two handler lists in turn is running them joined, unless the first stopped on an error |
| Reconciler.HandleMutationsSplit | src/web-components/Tabs.js:104-133 | a batch split in two and handled in two calls has the effect of the whole batch, unless the first part stopped on an error |
| Reconciler.IrrelevantBatch | src/web-components/Tabs.js:114-124 | a batch of non-elements and elements with no pane at any depth changes nothing |
| Reconciler.AddOne | src/web-components/Tabs.js:113-128 | one added pane is added with no wrapper; one added wrapper adds its first nested pane with the wrapper |
| Reconciler.RemoveOne | src/web-components/Tabs.js:113-131 | one removed node unregisters its pane by _removeTab as written if registered; otherwise the batch stops with nothing changed |
| TabsElement.Tabs.HandleMutations | src/web-components/Tabs.js:104-133 | the two loops give Reconciler.HandleMutations: the final state and whether every handler ran; the invariant is kept |
| Dispatch.CloseTab | src/web-components/Tabs.js:51-61 | a vetoed close removes nothing; otherwise the recorded wrapper is removed if any, else the pane; in the model it fails exactly for a tab without a pane |
| TabsElement.Tabs.CloseTab | src/web-components/Tabs.js:51-61 | returns Dispatch.CloseTab of the state, which it does not modify |
| Dispatch.HandleEvent | src/web-components/Tabs.js:43-49 | handleEvent({target}); its properties are Dispatch.HandleEventEffect and Dispatch.LinkClickSelects |
| Dispatch.HandleEventEffect | src/web-components/Tabs.js:43-49 | a close click changes no state and removes what closeTab says; a link click is setTabStatus; any other click does nothing; the invariant holds |
| Dispatch.CloseFromStripRemoves | src/web-components/Tabs.js:43-61 | in the model, a close from a tab of the strip never fails |
| Dispatch.LinkClickSelects | src/web-components/Tabs.js:46-47 | clicking an unselected tab's link selects it, shows its pane with its snapshot, and leaves at most one active |
| TabsElement.Tabs.HandleEvent | src/web-components/Tabs.js:43-49 | the in-place update and the removal are Dispatch.HandleEvent's |
| Scenarios.CreatedButNotSelected | src/web-components/Tabs.js:143-158 | after the initial scan tab 0 is active but `selected` is null, so a first click on it still runs setTabStatus and selects it |
| Scenarios.ScanKeepsLaterActive | src/web-components/Tabs.js:143-158 | createTabs activates only the first pane and hides the rest; a later pane that carries `active` keeps it, so after the scan two registered panes are active and at most one active no longer holds |
| Scenarios.LonePaneStaysHidden | src/web-components/Tabs.js:84-86 | a lone pane added without `active` is hidden and no tab is active |
| Scenarios.DeepWrapperAdds | src/web-components/Tabs.js:119-128 | an added element with a pane two levels down adds that pane with the element as wrapper |
| Scenarios.CloseThenObserve | src/web-components/Tabs.js:51-61 | the node closeTab removes, reported back as a removal record, unregisters the tab's pane and takes its tab off the strip; the wrapper map is unchanged |
| Scenarios.ReAddCloses | src/web-components/Tabs.js:54-59 | a pane added without a wrapper is closed by removing any wrapper still recorded for it |
| Scenarios.StaleWrapperClose | src/web-components/Tabs.js:72-74 | after add in a wrapper, removal and re-add alone: as written closing removes the old wrapper; corrected it removes the pane |
| Scenarios.StaleWrapperRecords | src/web-components/Tabs.js:104-133 | the same three steps as mutation records, handled as written: every record is handled, the old wrapper is still recorded for the pane, and the close removes that wrapper |

## Left out

- connectedCallback, disconnectedCallback and the MutationObserver (Tabs.js:11-35) are browser wiring. handleMutations is called with an explicit batch, and delivery is not modelled as asynchronous.
- attributeChangedCallback (Tabs.js:37-41) only copies a class string onto the `<ul>`.
- DOM construction is left out (Tabs.js:15-17, 160-165, 182-189): element creation, `role`, `href` and `data-toggle` attributes, and the button text. A tab is an id with an `active` class, a close-button flag and a label.
- The `tabclosed` CustomEvent and its listeners are the boolean `proceed`, the result of `dispatchEvent`.
- closeTab does not remove the node from a modelled document. It returns the node it removes (`Removes(n)`). The document's later mutation record is what the caller passes to handleMutations. The set of nodes present in the document is not modelled.
- handleTitle wiping the tab's children (`textContent`, Tabs.js:139) is modelled only as setting the label. The wipe also removes the tab's `a` link and its `button.close` (Tabs.js:175); the model keeps the tab in `closeButton` until the next handleClosable.
- A TypeError from `_removeTab` on an unregistered pane inside handleMutations ends the batch (`completed` false). closeTab on a tab with no pane, when not vetoed, is `Fails`. No other exception is modelled.
- createTabs run a second time on reconnect is not covered: it would insert a second `<ul>` and register panes again. Its lemmas require distinct, unregistered panes, as on the first connect.
- `tabMap.forEach` in _addTab visits tabs in insertion order. It is modelled as strip order followed by the new tab. The two agree because every tab of `tabMap` is in the strip, in the order it was added.
- TabsElement.Tabs.HandleClosable: requires a given tab to be one the element has handed out. handleClosable accepts any `li`, but makeTab, its only caller with a tab, passes the fresh one.
- Model.LastTab: `querySelector('ul li:last-child')` in _removeTab searches the whole container, not only the strip. The model assumes that no `li` inside the panes' content is the last child of some `ul`. Without that assumption, when no tab is left the query can return such an `li` instead of null, and setTabStatus then works on a node that is not a tab.
- Dispatch.CloseTab: the TypeError when the node to remove has no parent (`parentElement` is null, Tabs.js:56 and 58) is not modelled. The model does not track which nodes are in the document. Such a close is reachable: it happens when the wrapper recorded by the stale entry of the Findings has already left the document. There the model gives `Removes(w)`.
- The click target's classification (`classList.contains('close')`, `tagName === 'A'`, `parentNode`) is the `Click` datatype.

## Findings

| source | as written | input that shows it | evidently intended | confidence | as-written member | corrected member |
|---|---|---|---|---|---|---|
| src/web-components/Tabs.js:90-102 | `_removeTab` deletes the pane's `tabMap`, `paneMap` and `displayMap` entries but not its `wrapperMap` entry (set at Tabs.js:72-74) | a wrapper `w` holding pane `p` is added; `p` alone is then removed and added back directly; closing `p`'s tab removes the old `w` instead of `p` | removal clears every per-pane entry, so the close removes `p` | not executed | Registry.RemoveTabAsWritten (used by Reconciler.Step and TabsElement.Tabs.RemoveTab; shown by Registry.RemoveTabAsWrittenLeavesWrapper, Scenarios.StaleWrapperClose and Scenarios.StaleWrapperRecords) | Registry.RemoveTab (proved by Registry.RemoveTabClearsWrapper, Registry.RemoveTabKeepsWrappers, Registry.AddRemoveRoundTrip and Scenarios.StaleWrapperClose) |
