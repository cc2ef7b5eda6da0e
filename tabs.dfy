/**
  The `x-tabs` custom element of src/web-components/Tabs.js as a class whose
  methods update its fields in place, each proved to do what the functions of
  Selection, Registry, Reconciler and Dispatch say.

  The fields `selected`, `tabMap`, `paneMap`, `wrapperMap` and `displayMap` are
  the element's own; the others stand for the part of the DOM it writes (see
  Model.State).
 */
module TabsElement {
  import opened Dom
  import opened Model
  import Selection
  import Registry
  import Reconciler
  import Dispatch

  class Tabs {
    var selected: Option<Tab>
    var tabMap: map<Tab, Pane>
    var paneMap: map<Pane, Tab>
    var wrapperMap: map<Pane, Node>
    var displayMap: map<Pane, string>
    var strip: seq<Tab>
    var nextTab: Tab
    var tabActive: set<Tab>
    var closeButton: set<Tab>
    var labels: map<Tab, string>
    var panes: map<Pane, PaneState>

    /** The element as a value. */
    function Abs(): State
      reads this
    {
      State(selected, tabMap, paneMap, wrapperMap, displayMap, strip, nextTab,
            tabActive, closeButton, labels, panes)
    }

    ghost predicate Valid()
      reads this
    {
      Model.Valid(Abs())
    }

    /** A new element in a document whose panes have the attributes `doc`. */
    constructor(doc: map<Pane, PaneState>)
      ensures Abs() == Initial(doc) && Valid()
    {
      selected := None;
      tabMap := map[];
      paneMap := map[];
      wrapperMap := map[];
      displayMap := map[];
      strip := [];
      nextTab := 0;
      tabActive := {};
      closeButton := {};
      labels := map[];
      panes := doc;
    }

    method MakeActive(t: Tab)
      requires Registered(Abs(), t)
      modifies this
      ensures Abs() == Selection.MakeActive(old(Abs()), t)
    {
      tabActive := tabActive + {t};
      var p := tabMap[t];
      var naturalDisplay := displayMap[p];
      panes := panes[p := Lookup(panes, p).(display := naturalDisplay)];
      panes := panes[p := Lookup(panes, p).(active := true)];
    }

    method MakeInactive(t: Tab)
      requires t in tabMap
      modifies this
      ensures Abs() == Selection.MakeInactive(old(Abs()), t)
    {
      tabActive := tabActive - {t};
      var p := tabMap[t];
      panes := panes[p := Lookup(panes, p).(display := "none")];
      panes := panes[p := Lookup(panes, p).(active := false)];
    }

    method SetTabStatus(active: Option<Tab>)
      requires StripRegistered(Abs())
      modifies this
      ensures Abs() == Selection.SetTabStatus(old(Abs()), active)
      ensures old(Valid()) ==> Valid()
    {
      ghost var s0 := Abs();
      if Valid() {
        Selection.SetTabStatusValid(s0, active);
      }
      if active == selected {
        return;
      }
      selected := active;
      var tabs := strip;
      Selection.ApplyStatusSelected(s0, tabs, active, active);
      WalkTabs(tabs, active);
    }

    method HandleClosable(pane: Pane, tab: Option<Tab>)
      requires tab.None? || tab.value < nextTab
      modifies this
      ensures Abs() == Registry.HandleClosable(old(Abs()), pane, tab)
      ensures old(Valid()) ==> Valid()
    {
      if Valid() {
        Registry.HandleClosableValid(Abs(), pane, tab);
      }
      var t := tab;
      if t.None? && pane in paneMap {
        t := Some(paneMap[pane]);
      }
      if t.None? {
        return;
      }
      var button := t.value in closeButton;
      var closable := Lookup(panes, pane).closable;
      if !button && closable {
        closeButton := closeButton + {t.value};
      } else if button && !closable {
        closeButton := closeButton - {t.value};
      }
    }

    method MakeTab(pane: Pane) returns (tab: Tab)
      modifies this
      ensures tab == old(nextTab)
      ensures Abs() == Registry.MakeTab(old(Abs()), pane)
    {
      tab := nextTab;
      nextTab := nextTab + 1;
      HandleClosable(pane, Some(tab));
      labels := labels[tab := TitleOf(Lookup(panes, pane))];
      displayMap := displayMap[pane := Lookup(panes, pane).display];
    }

    method HandleTitle(panel: Pane, title: string)
      modifies this
      ensures Abs() == Registry.HandleTitle(old(Abs()), panel, title)
      ensures old(Valid()) ==> Valid()
    {
      if Valid() {
        Registry.HandleTitleValid(Abs(), panel, title);
      }
      if panel in paneMap {
        var tab := paneMap[panel];
        labels := labels[tab := if title != "" then title else Lookup(panes, panel).title];
      }
    }

    /** _addTab(pane, wrapper). `tabMap.forEach` visits the tabs in insertion
        order, which is the order of the strip followed by the new tab. */
    method AddTab(pane: Pane, wrapper: Option<Node>)
      requires Valid()
      modifies this
      ensures Abs() == Registry.AddTab(old(Abs()), pane, wrapper) && Valid()
    {
      if pane in paneMap {
        return;
      }
      ghost var s0 := Abs();
      Registry.AddTabSteps(s0, pane, wrapper);
      var tab := Register(pane, wrapper);
      var keys := strip + [tab];
      SetAddedStatus(pane, tab, keys);
      strip := strip + [tab];
    }

    /** The second half of _addTab: the status of every tab in `keys` when the
        new pane carries `active`, the new tab made inactive otherwise. */
    method SetAddedStatus(pane: Pane, tab: Tab, keys: seq<Tab>)
      requires forall i :: 0 <= i < |keys| ==> Registered(Abs(), keys[i])
      requires tab in tabMap
      modifies this
      ensures Abs() == Registry.AddStatus(old(Abs()), keys, tab, Lookup(old(panes), pane).active)
    {
      if Lookup(panes, pane).active {
        WalkTabs(keys, Some(tab));
      } else {
        MakeInactive(tab);
      }
    }

    /** The first half of _addTab: makeTab and the map updates. */
    method Register(pane: Pane, wrapper: Option<Node>) returns (tab: Tab)
      modifies this
      ensures tab == old(nextTab)
      ensures Abs() == Registry.Register(old(Abs()), pane, wrapper)
    {
      tab := MakeTab(pane);
      tabMap := tabMap[tab := pane];
      paneMap := paneMap[pane := tab];
      if wrapper.Some? {
        wrapperMap := wrapperMap[pane := wrapper.value];
      }
    }

    /** The loop of setTabStatus over the strip, and of _addTab over `tabMap`:
        every tab of `tabs` in turn, `active` made active, every other one
        inactive. */
    method WalkTabs(tabs: seq<Tab>, active: Option<Tab>)
      requires forall i :: 0 <= i < |tabs| ==> Registered(Abs(), tabs[i])
      modifies this
      ensures Abs() == Selection.ApplyStatus(old(Abs()), tabs, active)
    {
      ghost var s1 := Abs();
      assert forall i :: 0 <= i < |tabs| ==> Registered(s1, tabs[i]);
      var i := 0;
      while i < |tabs|
        invariant 0 <= i <= |tabs|
        invariant Abs() == Selection.ApplyStatus(s1, tabs[..i], active)
      {
        var tab := tabs[i];
        Selection.ApplyStatusSnoc(s1, tabs, i, active);
        if active == Some(tab) {
          MakeActive(tab);
        } else {
          MakeInactive(tab);
        }
        i := i + 1;
      }
      assert tabs[..i] == tabs;
    }

    /** _removeTab(pane): the pane's `wrapperMap` entry is left in place. */
    method RemoveTab(pane: Pane)
      requires Valid() && pane in paneMap
      modifies this
      ensures Abs() == Registry.RemoveTabAsWritten(old(Abs()), pane) && Valid()
    {
      var wasActive := Lookup(panes, pane).active;
      Detach(pane);
      ValidStripRegistered(Abs());
      if wasActive {
        var last := LastTab(strip);
        SetTabStatus(last);
      }
    }

    /** The first half of _removeTab: the tab leaves the strip and both maps,
        and the pane's display snapshot is dropped. */
    method Detach(pane: Pane)
      requires Valid() && pane in paneMap
      modifies this
      ensures Abs() == Registry.Detach(old(Abs()), pane)
    {
      var tab := paneMap[pane];
      strip := Registry.Without(strip, tab);
      tabMap := tabMap - {tab};
      paneMap := paneMap - {pane};
      displayMap := displayMap - {pane};
    }

    /** createTabs(): every pane of the element's subtree, `children`, in
        document order. */
    method CreateTabs(children: seq<DomNode>)
      modifies this
      ensures Abs() == Registry.CreateTabs(old(Abs()), PanesIn(children))
      ensures Registry.FirstScan(old(Abs()), PanesIn(children)) ==> Valid()
    {
      ghost var s0 := Abs();
      var ps := PanesIn(children);
      var index := 0;
      while index < |ps|
        invariant 0 <= index <= |ps|
        invariant Abs() == Registry.CreateTabs(s0, ps[..index])
      {
        Registry.CreateTabsSnoc(s0, ps, index);
        CreateOne(ps[index], index == 0);
        index := index + 1;
      }
      assert ps[..index] == ps;
      if Registry.FirstScan(s0, ps) {
        Registry.CreateTabsValid(s0, ps);
      }
    }

    /** One pass of the createTabs loop. */
    method CreateOne(pane: Pane, first: bool)
      modifies this
      ensures Abs() == Registry.CreateOne(old(Abs()), pane, first)
    {
      ghost var s0 := Abs();
      var tab := MakeTab(pane);
      strip := strip + [tab];
      tabMap := tabMap[tab := pane];
      paneMap := paneMap[pane := tab];
      ghost var s2 := Abs();
      assert s2 == Registry.MakeTab(s0, pane).(strip := s0.strip + [tab],
        tabMap := s0.tabMap[tab := pane], paneMap := s0.paneMap[pane := tab]);
      if first {
        MakeActive(tab);
      } else {
        panes := panes[pane := Lookup(panes, pane).(display := "none")];
      }
    }

    /** handleMutations(mutations): the handlers are collected first, then run
        in order; `completed` is false when one of them threw. */
    method HandleMutations(mutations: seq<Reconciler.Record>) returns (completed: bool)
      requires Valid()
      modifies this
      ensures (Abs(), completed) == Reconciler.HandleMutations(old(Abs()), mutations) && Valid()
    {
      var handlers := CollectHandlers(mutations);
      ghost var s0 := Abs();
      var k := 0;
      while k < |handlers|
        invariant 0 <= k <= |handlers| && Valid()
        invariant Reconciler.Run(s0, handlers) == Reconciler.Run(Abs(), handlers[k..])
      {
        var h := handlers[k];
        RunNext(Abs(), handlers, k);
        if h.node.Element? {
          var pane := h.node.id;
          var wrapper: Option<Node> := None;
          var found := true;
          if !h.node.isPane {
            wrapper := Some(h.node.id);
            var inner := FindPane(h.node.children);
            found := inner.Some?;
            if found {
              pane := inner.value;
            }
          }
          if found {
            if h.kind == Reconciler.Add {
              AddTab(pane, wrapper);
            } else {
              if pane !in paneMap {
                return false;
              }
              RemoveTab(pane);
            }
          }
        }
        k := k + 1;
      }
      return true;
    }

    /** The first loop of handleMutations, building `handlers`. */
    static method CollectHandlers(mutations: seq<Reconciler.Record>) returns (handlers: seq<Reconciler.Handler>)
      ensures handlers == Reconciler.Handlers(mutations)
    {
      handlers := [];
      var i := 0;
      while i < |mutations|
        invariant 0 <= i <= |mutations|
        invariant handlers == Reconciler.Handlers(mutations[..i])
      {
        var m := mutations[i];
        Reconciler.HandlersSnoc(mutations, i);
        if m.childList {
          handlers := PushAll(handlers, Reconciler.Add, m.added);
          handlers := PushAll(handlers, Reconciler.Remove, m.removed);
        }
        i := i + 1;
      }
      assert mutations[..i] == mutations;
    }

    /** `[...nodes].forEach(node => handlers.push([kind, node]))`. */
    static method PushAll(handlers: seq<Reconciler.Handler>, kind: Reconciler.Kind, nodes: seq<DomNode>)
      returns (r: seq<Reconciler.Handler>)
      ensures r == handlers + Reconciler.Tagged(kind, nodes)
    {
      r := handlers;
      var j := 0;
      while j < |nodes|
        invariant 0 <= j <= |nodes|
        invariant r == handlers + Reconciler.Tagged(kind, nodes[..j])
      {
        assert nodes[..j + 1][..j] == nodes[..j];
        r := r + [Reconciler.Handler(kind, nodes[j])];
        j := j + 1;
      }
      assert nodes[..j] == nodes;
    }

    /** closeTab(tab), told whether the `tabclosed` event went through: the node
        it removes from the document. */
    method CloseTab(tab: Tab, proceed: bool) returns (removal: Dispatch.Removal)
      ensures removal == Dispatch.CloseTab(Abs(), tab, proceed)
    {
      if !proceed {
        return Dispatch.NoRemoval;
      }
      if tab !in tabMap {
        return Dispatch.Fails;
      }
      var pane := tabMap[tab];
      if pane in wrapperMap {
        removal := Dispatch.Removes(wrapperMap[pane]);
      } else {
        removal := Dispatch.Removes(pane);
      }
    }

    method HandleEvent(target: Dispatch.Click, proceed: bool) returns (removal: Dispatch.Removal)
      requires Valid()
      modifies this
      ensures (Abs(), removal) == Dispatch.HandleEvent(old(Abs()), target, proceed) && Valid()
    {
      ValidStripRegistered(Abs());
      Dispatch.HandleEventEffect(Abs(), target, proceed);
      removal := Dispatch.NoRemoval;
      match target
      case CloseClick(tab) =>
        removal := CloseTab(tab, proceed);
      case LinkClick(tab) =>
        SetTabStatus(Some(tab));
      case OtherClick =>
    }
  }

  /** One more handler of the run: how Run continues from `s` at position `k`. */
  lemma RunNext(s: State, hs: seq<Reconciler.Handler>, k: nat)
    requires Model.Valid(s) && k < |hs|
    ensures Reconciler.Run(s, hs[k..]) ==
      match Reconciler.Classify(hs[k])
      case None => Reconciler.Run(s, hs[k + 1..])
      case Some(a) =>
        match Reconciler.Step(s, a)
        case None => (s, false)
        case Some(s') => Reconciler.Run(s', hs[k + 1..])
  {
    assert hs[k..][0] == hs[k];
    assert hs[k..][1..] == hs[k + 1..];
  }
}
