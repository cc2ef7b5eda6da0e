/**
  The state of one `x-tabs` container (class `Tabs` in src/web-components/Tabs.js),
  as a value.

  The registry fields `selected`, `tabMap`, `paneMap`, `wrapperMap` and `displayMap` are
  the class's own fields. The rest is the part of the DOM the container writes: the
  `<ul>` strip of tab handles (`li` elements, here `Tab` ids allocated from `nextTab`),
  each tab's `active` class, close button and label, and the attributes of the panes.
 */
module Model {
  import opened Dom

  /** A tab handle: the `li` element the container creates for one pane. */
  type Tab = nat

  datatype State = State(
    selected: Option<Tab>,          // the tab last passed to setTabStatus (null is None)
    tabMap: map<Tab, Pane>,         // tab -> pane
    paneMap: map<Pane, Tab>,        // pane -> tab
    wrapperMap: map<Pane, Node>,    // pane -> the element that wrapped it when it was added
    displayMap: map<Pane, string>,  // pane -> its inline display when its tab was made
    strip: seq<Tab>,                // the children of the `<ul>`, in order
    nextTab: Tab,                   // the next fresh `li`
    tabActive: set<Tab>,            // tabs carrying the `active` class
    closeButton: set<Tab>,          // tabs holding a `button.close`
    labels: map<Tab, string>,       // the text of each tab
    panes: map<Pane, PaneState>)    // the attributes of the panes

  /** A freshly constructed container over the document `panes`. */
  function Initial(panes: map<Pane, PaneState>): (s: State)
    ensures Valid(s) && s.strip == [] && s.selected == None
  {
    State(None, map[], map[], map[], map[], [], 0, {}, {}, map[], panes)
  }

  /** The registry invariant: the strip lists each registered tab once, `tabMap` and
      `paneMap` are inverse to each other with the strip's tabs as keys, every
      registered pane has a display snapshot, and no tab id in use is fresh. */
  ghost predicate Valid(s: State)
  {
    && Distinct(s.strip)
    && StripOf(s.strip, s.tabMap, s.nextTab)
    && (forall t :: t in s.closeButton ==> t < s.nextTab)
    && Inverse(s.tabMap, s.paneMap)
    && s.displayMap.Keys == s.paneMap.Keys
  }

  /** The strip holds exactly the keys of `tabMap`, all below `bound`. */
  predicate StripOf(strip: seq<Tab>, tabMap: map<Tab, Pane>, bound: Tab)
  {
    && (forall i :: 0 <= i < |strip| ==> strip[i] in tabMap && strip[i] < bound)
    && (forall t :: t in tabMap ==> t in strip)
  }

  /** `tabMap` and `paneMap` are inverse to each other. */
  predicate Inverse(tabMap: map<Tab, Pane>, paneMap: map<Pane, Tab>)
  {
    && (forall t :: t in tabMap ==> tabMap[t] in paneMap && paneMap[tabMap[t]] == t)
    && (forall p :: p in paneMap ==> paneMap[p] in tabMap && tabMap[paneMap[p]] == p)
  }

  /** Tab `t` has a pane, and that pane has a display snapshot:
      what makeActive needs of its argument. */
  predicate Registered(s: State, t: Tab)
  {
    t in s.tabMap && s.tabMap[t] in s.displayMap
  }

  /** Every tab of the strip is registered: what setTabStatus needs. */
  predicate StripRegistered(s: State)
  {
    forall i :: 0 <= i < |s.strip| ==> Registered(s, s.strip[i])
  }

  /** At most one tab of the strip has the `active` class, and at most one
      registered pane has the `active` attribute. */
  ghost predicate AtMostOneActive(s: State)
  {
    && (forall i, j ::
          (0 <= i < |s.strip| && 0 <= j < |s.strip| &&
           s.strip[i] in s.tabActive && s.strip[j] in s.tabActive) ==> i == j)
    && (forall p, q ::
          (p in s.paneMap && q in s.paneMap &&
           Lookup(s.panes, p).active && Lookup(s.panes, q).active) ==> p == q)
  }

  /** At most one active tab and pane follows when every active tab of the strip
      is `a` and every active registered pane is `pa`. */
  lemma OnlyActive(s: State, a: Option<Tab>, pa: Option<Pane>)
    requires Distinct(s.strip)
    requires forall i :: 0 <= i < |s.strip| && s.strip[i] in s.tabActive ==> Some(s.strip[i]) == a
    requires forall p :: p in s.paneMap && Lookup(s.panes, p).active ==> Some(p) == pa
    ensures AtMostOneActive(s)
  {
  }

  /** The last tab of a strip, `ul li:last-child`, or None when it is empty. */
  function LastTab(strip: seq<Tab>): (r: Option<Tab>)
    ensures r.None? <==> strip == []
    ensures r.Some? ==> r.value in strip
  {
    if strip == [] then None else Some(strip[|strip| - 1])
  }

  lemma ValidStripRegistered(s: State)
    requires Valid(s)
    ensures StripRegistered(s)
    ensures forall t :: t in s.tabMap ==> Registered(s, t)
  {
    forall i | 0 <= i < |s.strip|
      ensures Registered(s, s.strip[i])
    {
      assert s.strip[i] in s.tabMap;
    }
  }
}
