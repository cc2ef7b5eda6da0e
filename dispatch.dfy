/**
  Clicks on the tab strip of src/web-components/Tabs.js: handleEvent and the
  cancelable close protocol of closeTab.

  The `tabclosed` event is dispatched to listeners the container cannot see;
  their verdict (the result of `dispatchEvent`, false when a listener called
  `preventDefault`) is the parameter `proceed`.
 */
module Dispatch {
  import opened Dom
  import opened Model
  import opened Selection
  import opened Registry

  /** What closeTab does to the document: nothing (the close was vetoed, or the
      click was not on a close button), removal of one node from its parent, or
      a TypeError (a tab without a pane, whose missing pane has no parent). */
  datatype Removal = NoRemoval | Removes(node: Node) | Fails

  /** The target of a click on the strip, as handleEvent tells them apart: an
      element with class `close` inside tab `tab`, an `A` element inside tab
      `tab`, or anything else. */
  datatype Click = CloseClick(tab: Tab) | LinkClick(tab: Tab) | OtherClick

  /** closeTab(tab): if the `tabclosed` event is not cancelled, the wrapper the
      pane came with is removed when one was recorded, the pane itself otherwise.
      The registry is not touched: the removal reaches it through the
      MutationObserver, as a record for handleMutations. */
  function CloseTab(s: State, t: Tab, proceed: bool): (r: Removal)
    ensures !proceed ==> r == NoRemoval
    ensures proceed && t in s.tabMap && s.tabMap[t] in s.wrapperMap ==> r == Removes(s.wrapperMap[s.tabMap[t]])
    ensures proceed && t in s.tabMap && s.tabMap[t] !in s.wrapperMap ==> r == Removes(s.tabMap[t])
    ensures r == Fails <==> proceed && t !in s.tabMap
  {
    if !proceed then NoRemoval
    else if t !in s.tabMap then Fails
    else
      var p := s.tabMap[t];
      if p in s.wrapperMap then Removes(s.wrapperMap[p]) else Removes(p)
  }

  /** handleEvent({target}): a close button closes its tab, a link selects its
      tab, and any other click does nothing. */
  function HandleEvent(s: State, c: Click, proceed: bool): (r: (State, Removal))
    requires Valid(s)
  {
    ValidStripRegistered(s);
    match c
    case CloseClick(t) => (s, CloseTab(s, t, proceed))
    case LinkClick(t) => (SetTabStatus(s, Some(t)), NoRemoval)
    case OtherClick => (s, NoRemoval)
  }

  /** A click changes the state only through setTabStatus, and removes a node
      only through closeTab; a vetoed close changes nothing at all. */
  lemma HandleEventEffect(s: State, c: Click, proceed: bool)
    requires Valid(s)
    ensures var (r, rm) := HandleEvent(s, c, proceed);
      && Valid(r)
      && (c.CloseClick? ==> r == s && rm == CloseTab(s, c.tab, proceed))
      && (c.CloseClick? && !proceed ==> rm == NoRemoval)
      && (c.LinkClick? ==> r == SetTabStatus(s, Some(c.tab)) && rm == NoRemoval)
      && (c.OtherClick? ==> r == s && rm == NoRemoval)
  {
    SetTabStatusValid(s, if c.LinkClick? then Some(c.tab) else None);
  }

  /** A close button sits in a tab of the strip, so closing from a click never
      fails on a valid container. */
  lemma CloseFromStripRemoves(s: State, t: Tab)
    requires Valid(s) && t in s.strip
    ensures CloseTab(s, t, true).Removes?
  {
  }

  /** Clicking the link of a tab of the strip that is not selected makes it the
      selected tab, its pane shown with its snapshot and carrying `active`. */
  lemma LinkClickSelects(s: State, t: Tab)
    requires Valid(s) && t in s.strip && s.selected != Some(t)
    ensures var r := HandleEvent(s, LinkClick(t), true).0;
      && r.selected == Some(t)
      && Lookup(r.panes, s.tabMap[t]) == Activated(Lookup(s.panes, s.tabMap[t]), s.displayMap[s.tabMap[t]])
      && AtMostOneActive(r)
  {
    SetTabStatusEffect(s, Some(t));
    SetTabStatusAtMostOneActive(s, Some(t));
    SetTabStatusFrame(s, Some(t));
  }
}
