/**
  Whole-container consequences of src/web-components/Tabs.js: what a user of
  `x-tabs` sees across several operations, including the consequences of the
  stale `wrapperMap` entry left by _removeTab as written.
 */
module Scenarios {
  import opened Dom
  import opened Model
  import opened Selection
  import opened Registry
  import opened Reconciler
  import opened Dispatch

  /** After createTabs over a fresh container the first pane's tab carries
      `active`, yet `selected` is still null; so a first click on that very
      tab's link is not dropped as a repeat: setTabStatus runs and keeps it the
      only active tab. */
  lemma CreatedButNotSelected(doc: map<Pane, PaneState>, ps: seq<Pane>)
    requires Distinct(ps) && ps != []
    ensures var r := CreateTabs(Initial(doc), ps);
      && Valid(r)
      && r.selected == None
      && r.strip == Fresh(0, |ps|)
      && r.tabActive == {0}
      && HandleEvent(r, LinkClick(0), true).0.selected == Some(0)
  {
    var s := Initial(doc);
    var r := CreateTabs(s, ps);
    CreateTabsCreated(s, ps);
    CreateTabsValid(s, ps);
    FreshStrip(s, ps, r);
    LinkClickSelects(r, 0);
  }

  lemma FreshStrip(s: State, ps: seq<Pane>, r: State)
    requires s.strip == [] && s.nextTab == 0 && s.selected == None && s.tabActive == {} && ps != []
    requires CreatedTabs(s, ps, |ps|, r) && CreatedPanes(s, ps, |ps|, r)
    ensures r.strip == Fresh(0, |ps|) && 0 in r.strip && r.selected == None && r.tabActive == {0}
  {
    assert r.strip == [] + Fresh(0, |ps|);
    assert r.strip[0] == 0;
  }

  /** createTabs activates only the first pane and merely hides the others, so
      a later pane that already carries `active` keeps it: after the initial
      scan two registered panes can be marked `active`. */
  lemma ScanKeepsLaterActive(doc: map<Pane, PaneState>, ps: seq<Pane>)
    requires Distinct(ps) && |ps| >= 2 && Lookup(doc, ps[1]).active
    ensures var r := CreateTabs(Initial(doc), ps);
      && Valid(r)
      && ps[0] in r.paneMap && ps[1] in r.paneMap
      && Lookup(r.panes, ps[0]).active && Lookup(r.panes, ps[1]).active
      && Lookup(r.panes, ps[1]).display == "none"
      && !AtMostOneActive(r)
  {
    var s := Initial(doc);
    CreateTabsCreated(s, ps);
    CreateTabsValid(s, ps);
    var r := CreateTabs(s, ps);
    assert ps[0] != ps[1];
    assert ps[0] in r.paneMap && ps[1] in r.paneMap;
  }

  /** A lone pane added without `active` stays hidden: its tab is the whole
      strip, but no tab carries `active` and the pane has display `none`. */
  lemma LonePaneStaysHidden(doc: map<Pane, PaneState>, p: Pane, w: Option<Node>)
    requires !Lookup(doc, p).active
    ensures var r := AddTab(Initial(doc), p, w);
      && r.strip == [0]
      && r.tabActive == {}
      && Lookup(r.panes, p).display == "none"
      && !Lookup(r.panes, p).active
  {
    var s := Initial(doc);
    AddTabRegisters(s, p, w);
    AddTabLeavesOthers(s, p, w);
  }

  /** An added element that is not a pane is taken as a wrapper of the first
      pane at any depth below it, here two levels down. */
  lemma DeepWrapperAdds(s: State, w: Node, mid: Node, p: Pane)
    requires Valid(s)
    ensures var n := Element(w, false, [NonElement, Element(mid, false, [Element(p, true, [])])]);
      var r := HandleMutations(s, [Record(true, [n], [])]);
      && r == (AddTab(s, p, Some(w)), true)
      && p in r.0.paneMap
      && (p !in s.paneMap ==> r.0.wrapperMap[p] == w)
  {
    var n := Element(w, false, [NonElement, Element(mid, false, [Element(p, true, [])])]);
    var inner := Element(p, true, []);
    assert PanesUnder(inner) == [p] by { assert PanesIn([]) == []; }
    assert PanesIn([inner]) == [p] by { assert [inner][1..] == []; }
    assert PanesUnder(Element(mid, false, [inner])) == [p];
    assert PanesIn(n.children) == [p] by {
      assert n.children[1..] == [Element(mid, false, [inner])];
      assert n.children[1..][1..] == [];
    }
    AddOne(s, n);
    AddTabRegisters(s, p, Some(w));
  }

  /** Closing a tab and observing the removal: the node closeTab removes is the
      one the MutationObserver reports, and handling that record unregisters the
      tab's pane and takes the tab off the strip, while the pane's recorded
      wrapper, if any, stays. */
  lemma CloseThenObserve(s: State, t: Tab, n: DomNode)
    requires Valid(s) && t in s.strip
    requires n.Element? && CloseTab(s, t, true) == Removes(n.id)
    requires if n.isPane then n.id == s.tabMap[t]
             else PanesIn(n.children) != [] && PanesIn(n.children)[0] == s.tabMap[t]
    ensures var p := s.tabMap[t];
      var r := HandleMutations(s, [Record(true, [], [n])]);
      && r == (RemoveTabAsWritten(s, p), true)
      && p !in r.0.paneMap && t !in r.0.strip && r.0.wrapperMap == s.wrapperMap
  {
    var p := s.tabMap[t];
    RemoveOne(s, n, p);
    RemoveTabUnregisters(s, p);
  }

  /** A pane that came inside a wrapper, was then taken out on its own and put
      back on its own. As written, its old wrapper is still recorded, so the
      close button of its new tab removes the old wrapper, not the pane. With
      the entry deleted on removal, the pane itself is removed. */
  lemma StaleWrapperClose(s: State, p: Pane, w: Node)
    requires Valid(s) && p !in s.paneMap && w != p
    ensures var s1 := AddTab(s, p, Some(w));
      && Valid(s1) && p in s1.paneMap
      && var asWritten := AddTab(RemoveTabAsWritten(s1, p), p, None);
      && var corrected := AddTab(RemoveTab(s1, p), p, None);
      && p in asWritten.paneMap && p in corrected.paneMap
      && CloseTab(asWritten, asWritten.paneMap[p], true) == Removes(w)
      && CloseTab(corrected, corrected.paneMap[p], true) == Removes(p)
  {
    var s1 := AddTab(s, p, Some(w));
    AddTabRegisters(s, p, Some(w));
    RemoveTabAsWrittenLeavesWrapper(s1, p);
    ReAddCloses(RemoveTabAsWritten(s1, p), p);
    RemoveTabClearsWrapper(s1, p);
    ReAddCloses(RemoveTab(s1, p), p);
  }

  /** Re-adding an unregistered pane on its own: its close removes the wrapper
      still recorded for it, if any, and the pane otherwise. */
  lemma ReAddCloses(s: State, p: Pane)
    requires Valid(s) && p !in s.paneMap
    ensures var r := AddTab(s, p, None);
      && p in r.paneMap
      && CloseTab(r, r.paneMap[p], true) == if p in s.wrapperMap then Removes(s.wrapperMap[p]) else Removes(p)
  {
    AddTabRegisters(s, p, None);
  }

  /** The same three steps delivered as mutation records: the wrapper with the
      pane inside is added, the pane alone is removed, the pane alone is added.
      Every record is handled, yet the old wrapper is still recorded for the
      pane, and the close button of its new tab removes that wrapper. */
  lemma StaleWrapperRecords(s: State, p: Pane, w: Node)
    requires Valid(s) && p !in s.paneMap && w != p
    ensures var pane := Element(p, true, []);
      var r1 := HandleMutations(s, [Record(true, [Element(w, false, [pane])], [])]);
      var r2 := HandleMutations(r1.0, [Record(true, [], [pane])]);
      var r3 := HandleMutations(r2.0, [Record(true, [pane], [])]);
      && r1.1 && r2.1 && r3.1
      && p in r3.0.paneMap && p in r3.0.wrapperMap && r3.0.wrapperMap[p] == w
      && CloseTab(r3.0, r3.0.paneMap[p], true) == Removes(w)
  {
    var pane := Element(p, true, []);
    var wrapped := Element(w, false, [pane]);
    assert PanesIn(wrapped.children) == [p];
    AddOne(s, wrapped);
    var s1 := AddTab(s, p, Some(w));
    AddTabRegisters(s, p, Some(w));
    RemoveOne(s1, pane, p);
    var s2 := RemoveTabAsWritten(s1, p);
    RemoveTabUnregisters(s1, p);
    AddOne(s2, pane);
    AddTabRegisters(s2, p, None);
  }
}
