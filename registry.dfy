/**
  The registry of src/web-components/Tabs.js: makeTab, handleClosable, handleTitle,
  _addTab, _removeTab and createTabs, as functions on the container's State.
 */
module Registry {
  import opened Dom
  import opened Model
  import opened Selection

  // ---------------------------------------------------------------------------
  // Tab handles: makeTab, handleClosable, handleTitle

  /** handleClosable(pane, tab) on the tab `t`. */
  function HandleClosableOn(s: State, p: Pane, t: Tab): State
  {
    s.(closeButton := SyncButton(s.closeButton, t, Lookup(s.panes, p).closable))
  }

  /** The tabs holding a close button after handleClosable on tab `t`: the button
      is added when missing and the pane is `closable`, and removed when present
      and the pane is not. */
  function SyncButton(buttons: set<Tab>, t: Tab, closable: bool): set<Tab>
  {
    if t !in buttons && closable then buttons + {t}
    else if t in buttons && !closable then buttons - {t}
    else buttons
  }

  /** handleClosable(pane, tab = paneMap.get(pane)): with no tab given the pane's
      own tab is used, and nothing happens for a pane that has none. */
  function HandleClosable(s: State, p: Pane, tab: Option<Tab>): State
  {
    var t := if tab.Some? then tab else if p in s.paneMap then Some(s.paneMap[p]) else None;
    if t.None? then s else HandleClosableOn(s, p, t.value)
  }

  /** After handleClosable the tab has a close button exactly when the pane is
      closable; no other tab and nothing else of the state changes. */
  lemma HandleClosableOnSyncs(s: State, p: Pane, t: Tab)
    ensures var r := HandleClosableOn(s, p, t);
      && r == s.(closeButton := r.closeButton)
      && (t in r.closeButton <==> Lookup(s.panes, p).closable)
      && (forall k :: k != t ==> (k in r.closeButton <==> k in s.closeButton))
  {
  }

  /** handleClosable(pane) on a registered pane syncs the close button of the
      pane's own tab and keeps that tab (same identity, same place in the strip);
      on an unregistered pane it does nothing. */
  lemma HandleClosableSyncs(s: State, p: Pane)
    ensures var r := HandleClosable(s, p, None);
      && r == s.(closeButton := r.closeButton)
      && (p in s.paneMap ==> (s.paneMap[p] in r.closeButton <==> Lookup(s.panes, p).closable))
      && (p in s.paneMap ==> forall k :: k != s.paneMap[p] ==> (k in r.closeButton <==> k in s.closeButton))
      && (p !in s.paneMap ==> r == s)
  {
    if p in s.paneMap {
      HandleClosableOnSyncs(s, p, s.paneMap[p]);
    }
  }

  /** handleClosable keeps the registry invariant when the tab it is given, if
      any, was handed out already. */
  lemma HandleClosableValid(s: State, p: Pane, tab: Option<Tab>)
    requires Valid(s) && (tab.None? || tab.value < s.nextTab)
    ensures Valid(HandleClosable(s, p, tab))
  {
    if tab.None? && p in s.paneMap {
      var t := s.paneMap[p];
      assert t in s.tabMap;
      var i :| 0 <= i < |s.strip| && s.strip[i] == t;
    }
  }

  /** makeTab(pane): a fresh `li` with a close button when the pane is closable,
      labelled `getAttribute('title') || title`; the pane's current inline display
      is snapshotted. */
  function MakeTab(s: State, p: Pane): State
  {
    var t := s.nextTab;
    var ps := Lookup(s.panes, p);
    HandleClosableOn(s, p, t).(nextTab := t + 1, labels := s.labels[t := TitleOf(ps)],
                               displayMap := s.displayMap[p := ps.display])
  }

  lemma MakeTabEffect(s: State, p: Pane)
    requires Valid(s)
    ensures var r := MakeTab(s, p);
      && r == s.(nextTab := r.nextTab, closeButton := r.closeButton, labels := r.labels,
                 displayMap := r.displayMap)
      && r.nextTab == s.nextTab + 1
      && r.closeButton == (if Lookup(s.panes, p).closable then s.closeButton + {s.nextTab} else s.closeButton)
      && r.labels == s.labels[s.nextTab := TitleOf(Lookup(s.panes, p))]
      && r.displayMap == s.displayMap[p := Lookup(s.panes, p).display]
  {
    assert s.nextTab !in s.closeButton;
  }

  /** handleTitle(panel, title): a registered pane's tab shows `title`, or the
      pane's `title` property when `title` is empty; otherwise nothing happens. */
  function HandleTitle(s: State, p: Pane, title: string): State
  {
    if p in s.paneMap then
      s.(labels := s.labels[s.paneMap[p] := if title != "" then title else Lookup(s.panes, p).title])
    else s
  }

  /** handleTitle only relabels, so it keeps the registry invariant. */
  lemma HandleTitleValid(s: State, p: Pane, title: string)
    requires Valid(s)
    ensures Valid(HandleTitle(s, p, title))
  {
  }

  /** Only the label of the pane's tab changes, and the last title set wins. */
  lemma HandleTitleLastWins(s: State, p: Pane, x: string, y: string)
    ensures var r := HandleTitle(HandleTitle(s, p, x), p, y);
      && r == HandleTitle(s, p, y)
      && r == s.(labels := r.labels)
      && (p in s.paneMap ==> r.labels[s.paneMap[p]] == (if y != "" then y else Lookup(s.panes, p).title))
      && (forall k :: k in s.labels && (p !in s.paneMap || k != s.paneMap[p]) ==>
            k in r.labels && r.labels[k] == s.labels[k])
  {
  }

  // ---------------------------------------------------------------------------
  // _addTab

  /** The container right after `makeTab` and the map updates of _addTab:
      `tabMap.set(tab, pane)`, `paneMap.set(pane, tab)` and, when a wrapper was
      given, `wrapperMap.set(pane, wrapper)`. */
  function Register(s: State, p: Pane, w: Option<Node>): State
  {
    var t := s.nextTab;
    var s1 := MakeTab(s, p);
    s1.(tabMap := s1.tabMap[t := p], paneMap := s1.paneMap[p := t],
        wrapperMap := if w.Some? then s1.wrapperMap[p := w.value] else s1.wrapperMap)
  }

  lemma RegisterReady(s: State, p: Pane, w: Option<Node>)
    requires Valid(s) && p !in s.paneMap
    ensures var s1 := Register(s, p, w); var tabs := s.strip + [s.nextTab];
      && (forall i :: 0 <= i < |tabs| ==> Registered(s1, tabs[i]))
      && Distinct(tabs)
      && PanesDistinct(s1.tabMap, tabs)
      && PanesOf(s1.tabMap, tabs) == s1.paneMap.Keys
      && s1.tabMap[s.nextTab] == p
  {
    MakeTabEffect(s, p);
    var s1 := Register(s, p, w);
    var tabs := s.strip + [s.nextTab];
    AppendValid(s, s1.(strip := tabs), p);
    ReadyFromValid(s1, tabs);
  }

  /** A container whose strip is about to become `tabs`, with the registry
      invariant holding once it is: what the activation loop needs. */
  lemma ReadyFromValid(s1: State, tabs: seq<Tab>)
    requires Valid(s1.(strip := tabs))
    ensures forall i :: 0 <= i < |tabs| ==> Registered(s1, tabs[i])
    ensures Distinct(tabs) && PanesDistinct(s1.tabMap, tabs)
    ensures PanesOf(s1.tabMap, tabs) == s1.paneMap.Keys
  {
    var r := s1.(strip := tabs);
    ValidStripRegistered(r);
    ValidPanesDistinct(r);
    assert forall i :: 0 <= i < |tabs| ==> Registered(r, tabs[i]);
  }

  /** The activation half of _addTab, on the container `s1` right after
      Register: a pane carrying `active` makes its tab `t` the active one of all
      `tabs`, and any other pane's tab is made inactive. */
  function AddStatus(s1: State, tabs: seq<Tab>, t: Tab, active: bool): (r: State)
    requires forall i :: 0 <= i < |tabs| ==> Registered(s1, tabs[i])
    requires t in s1.tabMap
    ensures SameRegistry(r, s1)
  {
    if active then ApplyStatus(s1, tabs, Some(t)) else MakeInactive(s1, t)
  }

  /** _addTab(pane, wrapper): a pane that already has a tab is left alone.
      Otherwise it gets a new tab registered in both maps; a pane carrying
      `active` becomes the one active pane of all tabs in `tabMap` (iterated in
      insertion order, which is the strip's order), and any other pane is made
      inactive; the new tab is appended to the strip. `selected` is not touched. */
  function AddTab(s: State, p: Pane, w: Option<Node>): (r: State)
    requires Valid(s)
  {
    if p in s.paneMap then s
    else
      var t := s.nextTab;
      RegisterReady(s, p, w);
      var s2 := AddStatus(Register(s, p, w), s.strip + [t], t, Lookup(s.panes, p).active);
      s2.(strip := s2.strip + [t])
  }

  /** A new pane's _addTab in the order of its statements: Register, the
      activation half over the tabs of `tabMap`, the append; the invariant holds
      after it. */
  lemma AddTabSteps(s: State, p: Pane, w: Option<Node>)
    requires Valid(s) && p !in s.paneMap
    ensures var s1 := Register(s, p, w); var t := s.nextTab; var tabs := s.strip + [t];
      && s1.strip == s.strip && s1.nextTab == t + 1 && s1.panes == s.panes
      && (forall i :: 0 <= i < |tabs| ==> Registered(s1, tabs[i]))
      && t in s1.tabMap
      && var s2 := AddStatus(s1, tabs, t, Lookup(s.panes, p).active);
      && AddTab(s, p, w) == s2.(strip := s2.strip + [t])
      && Valid(AddTab(s, p, w))
  {
    RegisterReady(s, p, w);
    RegisterEffect(s, p, w);
    AddTabRegisters(s, p, w);
  }

  /** Adding a pane that is already registered changes nothing; so adding a pane
      twice is adding it once. */
  lemma AddTabIdempotent(s: State, p: Pane, w: Option<Node>, w': Option<Node>)
    requires Valid(s)
    ensures p in s.paneMap ==> AddTab(s, p, w) == s
    ensures Valid(AddTab(s, p, w)) && AddTab(AddTab(s, p, w), p, w') == AddTab(s, p, w)
  {
    AddTabRegisters(s, p, w);
  }

  /** Registering a new pane `p` under the fresh tab appended to the strip keeps
      the registry invariant. */
  lemma AppendValid(s: State, r: State, p: Pane)
    requires Valid(s) && p !in s.paneMap
    requires r.strip == s.strip + [s.nextTab] && r.nextTab == s.nextTab + 1
    requires r.tabMap == s.tabMap[s.nextTab := p] && r.paneMap == s.paneMap[p := s.nextTab]
    requires r.displayMap.Keys == s.displayMap.Keys + {p}
    requires r.closeButton <= s.closeButton + {s.nextTab}
    ensures Valid(r)
  {
    var t := s.nextTab;
    assert t !in s.strip;
    SnocDistinct(s.strip, t);
    StripSnoc(s.strip, s.tabMap, t, p);
    InverseAdd(s.tabMap, s.paneMap, t, p);
  }

  lemma SnocDistinct(xs: seq<Tab>, t: Tab)
    requires Distinct(xs) && t !in xs
    ensures Distinct(xs + [t])
  {
    var ys := xs + [t];
    forall i, j | 0 <= i < j < |ys| ensures ys[i] != ys[j] {
      assert ys[i] == xs[i];
      if j < |xs| { assert ys[j] == xs[j]; }
    }
  }

  /** Appending the fresh tab `t` to the strip and to `tabMap` keeps them in step. */
  lemma StripSnoc(strip: seq<Tab>, tabMap: map<Tab, Pane>, t: Tab, p: Pane)
    requires StripOf(strip, tabMap, t)
    ensures StripOf(strip + [t], tabMap[t := p], t + 1)
  {
    var ys := strip + [t];
    forall i | 0 <= i < |ys| ensures ys[i] in tabMap[t := p] && ys[i] < t + 1 {
      if i < |strip| { assert ys[i] == strip[i]; }
    }
    forall k | k in tabMap[t := p] ensures k in ys {
      if k != t { assert k in strip; }
      else { assert ys[|strip|] == t; }
    }
  }

  /** Adding the pair of a fresh tab `t` and a new pane `p` to two inverse maps
      leaves them inverse. */
  lemma InverseAdd(tabMap: map<Tab, Pane>, paneMap: map<Pane, Tab>, t: Tab, p: Pane)
    requires Inverse(tabMap, paneMap) && t !in tabMap && p !in paneMap
    ensures Inverse(tabMap[t := p], paneMap[p := t])
  {
  }

  /** A new pane is registered under a fresh tab appended at the end of the strip,
      in both maps, with its display snapshotted; the wrapper is recorded only
      when one was given; the selection is untouched and the invariant holds. */
  lemma AddTabRegisters(s: State, p: Pane, w: Option<Node>)
    requires Valid(s)
    ensures p in AddTab(s, p, w).paneMap
    ensures p !in s.paneMap ==> var r := AddTab(s, p, w); var t := s.nextTab;
      && Valid(r)
      && r.strip == s.strip + [t]
      && t !in s.tabMap
      && r.tabMap == s.tabMap[t := p]
      && r.paneMap == s.paneMap[p := t]
      && r.wrapperMap == (if w.Some? then s.wrapperMap[p := w.value] else s.wrapperMap)
      && r.displayMap == s.displayMap[p := Lookup(s.panes, p).display]
      && r.selected == s.selected
      && r.labels[t] == TitleOf(Lookup(s.panes, p))
      && (t in r.closeButton <==> Lookup(s.panes, p).closable)
  {
    if p !in s.paneMap {
      AddTabShape(s, p, w);
      RegisterEffect(s, p, w);
      AppendValid(s, AddTab(s, p, w), p);
    }
  }

  /** Register changes the registry as _addTab's map updates and makeTab say. */
  lemma RegisterEffect(s: State, p: Pane, w: Option<Node>)
    requires Valid(s)
    ensures var s1 := Register(s, p, w); var t := s.nextTab;
      && s1.strip == s.strip && s1.nextTab == t + 1 && t !in s.tabMap
      && s1.tabMap == s.tabMap[t := p]
      && s1.paneMap == s.paneMap[p := t]
      && s1.wrapperMap == (if w.Some? then s.wrapperMap[p := w.value] else s.wrapperMap)
      && s1.displayMap == s.displayMap[p := Lookup(s.panes, p).display]
      && s1.selected == s.selected && s1.panes == s.panes && s1.tabActive == s.tabActive
      && s1.labels == s.labels[t := TitleOf(Lookup(s.panes, p))]
      && s1.closeButton == (if Lookup(s.panes, p).closable then s.closeButton + {t} else s.closeButton)
  {
    MakeTabEffect(s, p);
    assert s.nextTab !in s.strip;
  }

  /** A new pane's _addTab is Register followed by the activation loop, which
      touches only classes and pane attributes, and the append to the strip. */
  lemma AddTabShape(s: State, p: Pane, w: Option<Node>)
    requires Valid(s) && p !in s.paneMap
    ensures var r := AddTab(s, p, w);
      r == Register(s, p, w).(strip := s.strip + [s.nextTab], tabActive := r.tabActive, panes := r.panes)
  {
    RegisterReady(s, p, w);
  }

  /** A new pane carrying `active` becomes the only active pane: its tab is the
      only tab of the strip with the `active` class, it is the only registered
      pane with the `active` attribute, and it is shown with its own display. */
  lemma AddTabActivates(s: State, p: Pane, w: Option<Node>)
    requires Valid(s) && p !in s.paneMap && Lookup(s.panes, p).active
    ensures var r := AddTab(s, p, w); var t := s.nextTab;
      && (forall k :: k in r.strip ==> (k in r.tabActive <==> k == t))
      && (forall q :: q in r.paneMap ==> (Lookup(r.panes, q).active <==> q == p))
      && Lookup(r.panes, p).display == Lookup(s.panes, p).display
      && AtMostOneActive(r)
  {
    RegisteredPanes(s, p, w);
    ActiveAlone(Register(s, p, w), s.strip + [s.nextTab], s.nextTab, p);
    AddTabActiveShape(s, p, w);
  }

  /** A new pane carrying `active` is added by Register, the activation loop over
      the strip and the new tab, and the append. */
  lemma AddTabActiveShape(s: State, p: Pane, w: Option<Node>)
    requires Valid(s) && p !in s.paneMap && Lookup(s.panes, p).active
    ensures var s1 := Register(s, p, w); var tabs := s.strip + [s.nextTab];
      && (forall i :: 0 <= i < |tabs| ==> Registered(s1, tabs[i]))
      && AddTab(s, p, w) == ApplyStatus(s1, tabs, Some(s.nextTab)).(strip := tabs)
  {
    RegisterReady(s, p, w);
  }

  lemma RegisteredPanes(s: State, p: Pane, w: Option<Node>)
    requires Valid(s) && p !in s.paneMap
    ensures var s1 := Register(s, p, w); var tabs := s.strip + [s.nextTab];
      && (forall i :: 0 <= i < |tabs| ==> Registered(s1, tabs[i]))
      && Distinct(tabs) && PanesDistinct(s1.tabMap, tabs)
      && (forall q :: q in s1.paneMap ==>
            s1.paneMap[q] in tabs && s1.paneMap[q] in s1.tabMap && s1.tabMap[s1.paneMap[q]] == q)
      && p in s1.paneMap && s1.paneMap[p] == s.nextTab && p in s1.displayMap
      && s1.displayMap[p] == Lookup(s1.panes, p).display
      && s1.panes == s.panes
  {
    RegisterReady(s, p, w);
    MakeTabEffect(s, p);
  }

  /** The conclusion of AddTabActivates, from what the activation loop does on
      the container `s1` after Register. */
  lemma ActiveAlone(s1: State, tabs: seq<Tab>, t: Tab, p: Pane)
    requires forall i :: 0 <= i < |tabs| ==> Registered(s1, tabs[i])
    requires Distinct(tabs) && PanesDistinct(s1.tabMap, tabs)
    requires forall q :: q in s1.paneMap ==>
      s1.paneMap[q] in tabs && s1.paneMap[q] in s1.tabMap && s1.tabMap[s1.paneMap[q]] == q
    requires p in s1.paneMap && s1.paneMap[p] == t && p in s1.displayMap
    requires s1.displayMap[p] == Lookup(s1.panes, p).display
    ensures var r := ApplyStatus(s1, tabs, Some(t)).(strip := tabs);
      && (forall k :: k in r.strip ==> (k in r.tabActive <==> k == t))
      && (forall q :: q in r.paneMap ==> (Lookup(r.panes, q).active <==> q == p))
      && Lookup(r.panes, p).display == Lookup(s1.panes, p).display
      && AtMostOneActive(r)
  {
    ApplyStatusEffect(s1, tabs, Some(t));
    ActiveAloneOf(s1, tabs, t, p, ApplyStatus(s1, tabs, Some(t)).(strip := tabs));
  }

  /** ActiveAlone for any state `r` over the registry of `s1` whose classes and
      panes are what the activation loop leaves. */
  lemma ActiveAloneOf(s1: State, tabs: seq<Tab>, t: Tab, p: Pane, r: State)
    requires forall i :: 0 <= i < |tabs| ==> Registered(s1, tabs[i])
    requires Distinct(tabs)
    requires forall q :: q in s1.paneMap ==>
      s1.paneMap[q] in tabs && s1.paneMap[q] in s1.tabMap && s1.tabMap[s1.paneMap[q]] == q
    requires p in s1.paneMap && s1.paneMap[p] == t && p in s1.displayMap
    requires s1.displayMap[p] == Lookup(s1.panes, p).display
    requires r.strip == tabs && r.tabMap == s1.tabMap && r.paneMap == s1.paneMap
    requires forall i :: 0 <= i < |tabs| ==> (tabs[i] in r.tabActive <==> Some(t) == Some(tabs[i]))
    requires forall i :: 0 <= i < |tabs| && Registered(s1, tabs[i]) ==>
      Lookup(r.panes, s1.tabMap[tabs[i]]) == StatusOf(s1, tabs[i], Some(t))
    ensures forall k :: k in r.strip ==> (k in r.tabActive <==> k == t)
    ensures forall q :: q in r.paneMap ==> (Lookup(r.panes, q).active <==> q == p)
    ensures Lookup(r.panes, p).display == Lookup(s1.panes, p).display
    ensures AtMostOneActive(r)
  {
    forall k | k in r.strip ensures k in r.tabActive <==> k == t {
      var i :| 0 <= i < |tabs| && tabs[i] == k;
    }
    forall q | q in r.paneMap ensures Lookup(r.panes, q).active <==> q == p {
      var i :| 0 <= i < |tabs| && tabs[i] == r.paneMap[q];
      assert Lookup(r.panes, q) == StatusOf(s1, tabs[i], Some(t));
    }
    var i :| 0 <= i < |tabs| && tabs[i] == t;
    assert Lookup(r.panes, p) == StatusOf(s1, tabs[i], Some(t));
    forall i, j | 0 <= i < |r.strip| && 0 <= j < |r.strip| &&
                  r.strip[i] in r.tabActive && r.strip[j] in r.tabActive
      ensures i == j
    {
      assert r.strip[i] == t && r.strip[j] == t;
    }
  }

  /** A new pane without `active` is made inactive even when it is the only
      pane; nothing but the new tab's class and the new pane's attributes is
      touched, so every other tab keeps its state. */
  lemma AddTabLeavesOthers(s: State, p: Pane, w: Option<Node>)
    requires Valid(s) && p !in s.paneMap && !Lookup(s.panes, p).active
    ensures var r := AddTab(s, p, w);
      && r.tabActive == s.tabActive - {s.nextTab}
      && r.panes == s.panes[p := Deactivated(Lookup(s.panes, p))]
      && Lookup(r.panes, p).display == "none"
  {
    RegisterReady(s, p, w);
  }

  // ---------------------------------------------------------------------------
  // _removeTab

  /** The strip without tab `t` (`tab.parentNode.removeChild(tab)`). */
  function Without(xs: seq<Tab>, t: Tab): seq<Tab>
    decreases |xs|
  {
    if xs == [] then []
    else (if xs[0] == t then [] else [xs[0]]) + Without(xs[1..], t)
  }

  lemma {:induction false} WithoutMembers(xs: seq<Tab>, t: Tab)
    ensures forall x :: x in Without(xs, t) <==> x in xs && x != t
    decreases |xs|
  {
    if xs != [] {
      WithoutMembers(xs[1..], t);
      assert forall x :: x in xs <==> x == xs[0] || x in xs[1..];
    }
  }

  /** Removing a tab of a strip without repetitions cuts it out at its place and
      keeps the order of the others. */
  lemma {:induction false} WithoutAt(xs: seq<Tab>, i: nat)
    requires Distinct(xs) && i < |xs|
    ensures Without(xs, xs[i]) == xs[..i] + xs[i + 1..]
    decreases |xs|
  {
    if i == 0 {
      WithoutAbsent(xs[1..], xs[0]);
    } else {
      assert Distinct(xs[1..]);
      WithoutAt(xs[1..], i - 1);
      assert xs[1..][i - 1] == xs[i];
      assert xs[1..][..i - 1] + xs[1..][i..] == xs[1..i] + xs[i + 1..];
      assert [xs[0]] + (xs[1..i] + xs[i + 1..]) == xs[..i] + xs[i + 1..];
    }
  }

  lemma {:induction false} WithoutAbsent(xs: seq<Tab>, t: Tab)
    requires t !in xs
    ensures Without(xs, t) == xs
    decreases |xs|
  {
    if xs != [] {
      WithoutAbsent(xs[1..], t);
      assert [xs[0]] + xs[1..] == xs;
    }
  }

  lemma WithoutDistinct(xs: seq<Tab>, t: Tab)
    requires Distinct(xs)
    ensures Distinct(Without(xs, t))
  {
    if t in xs {
      var i :| 0 <= i < |xs| && xs[i] == t;
      WithoutAt(xs, i);
      var ys := xs[..i] + xs[i + 1..];
      forall a, b | 0 <= a < b < |ys| ensures ys[a] != ys[b] {
        var a' := if a < i then a else a + 1;
        var b' := if b < i then b else b + 1;
        assert ys[a] == xs[a'] && ys[b] == xs[b'];
      }
    } else {
      WithoutAbsent(xs, t);
    }
  }

  /** The unregistering half of _removeTab: the tab leaves the strip, the pane
      leaves `tabMap`, `paneMap` and `displayMap`. */
  function Detach(s: State, p: Pane): (r: State)
    requires Valid(s) && p in s.paneMap
    ensures Valid(r)
    ensures r == s.(strip := Without(s.strip, s.paneMap[p]), tabMap := s.tabMap - {s.paneMap[p]},
                    paneMap := s.paneMap - {p}, displayMap := s.displayMap - {p})
  {
    var t := s.paneMap[p];
    var r := s.(strip := Without(s.strip, t), tabMap := s.tabMap - {t}, paneMap := s.paneMap - {p},
                displayMap := s.displayMap - {p});
    DetachValid(s, p, r);
    r
  }

  /** Unregistering pane `p` and its tab keeps the registry invariant. */
  lemma DetachValid(s: State, p: Pane, r: State)
    requires Valid(s) && p in s.paneMap
    requires r.strip == Without(s.strip, s.paneMap[p]) && r.nextTab == s.nextTab
    requires r.tabMap == s.tabMap - {s.paneMap[p]} && r.paneMap == s.paneMap - {p}
    requires r.displayMap == s.displayMap - {p} && r.closeButton == s.closeButton
    ensures Valid(r)
  {
    var t := s.paneMap[p];
    WithoutDistinct(s.strip, t);
    StripWithout(s.strip, s.tabMap, t, s.nextTab);
    InverseWithout(s.tabMap, s.paneMap, t, p);
  }

  /** Cutting tab `t` out of the strip and out of `tabMap` keeps them in step. */
  lemma StripWithout(strip: seq<Tab>, tabMap: map<Tab, Pane>, t: Tab, bound: Tab)
    requires StripOf(strip, tabMap, bound)
    ensures StripOf(Without(strip, t), tabMap - {t}, bound)
  {
    WithoutMembers(strip, t);
    var ys := Without(strip, t);
    forall i | 0 <= i < |ys| ensures ys[i] in tabMap - {t} && ys[i] < bound {
      assert ys[i] in ys;
      var j :| 0 <= j < |strip| && strip[j] == ys[i];
    }
  }

  /** Removing the pair `t`, `p` from two inverse maps leaves them inverse. */
  lemma InverseWithout(tabMap: map<Tab, Pane>, paneMap: map<Pane, Tab>, t: Tab, p: Pane)
    requires Inverse(tabMap, paneMap) && p in paneMap && paneMap[p] == t
    ensures Inverse(tabMap - {t}, paneMap - {p})
  {
  }

  /** The fallback of _removeTab: when the removed pane carried `active`, the
      last tab of the strip (`ul li:last-child`, or null) goes to setTabStatus. */
  function Reselect(s1: State, wasActive: bool): (r: State)
    requires Valid(s1)
    ensures Valid(r)
    ensures r == s1.(selected := r.selected, tabActive := r.tabActive, panes := r.panes)
  {
    SetTabStatusValid(s1, LastTab(s1.strip));
    if wasActive then SetTabStatus(s1, LastTab(s1.strip)) else s1
  }

  /** _removeTab(pane) as written: Detach, then the fallback selection. The
      pane's `wrapperMap` entry is kept. */
  function RemoveTabAsWritten(s: State, p: Pane): (r: State)
    requires Valid(s) && p in s.paneMap
    ensures Valid(r)
    ensures r == Detach(s, p).(selected := r.selected, tabActive := r.tabActive, panes := r.panes)
  {
    Reselect(Detach(s, p), Lookup(s.panes, p).active)
  }

  /** _removeTab(pane) that also deletes the pane's `wrapperMap` entry, so that
      no bookkeeping of a removed pane survives. */
  function RemoveTab(s: State, p: Pane): (r: State)
    requires Valid(s) && p in s.paneMap
    ensures Valid(r)
  {
    RemoveTabAsWritten(s, p).(wrapperMap := s.wrapperMap - {p})
  }

  /** As written, the removed pane's wrapper stays recorded; corrected, it is gone
      and every other pane's wrapper is kept. */
  lemma RemoveTabClearsWrapper(s: State, p: Pane)
    requires Valid(s) && p in s.paneMap
    ensures RemoveTabAsWritten(s, p).wrapperMap == s.wrapperMap
    ensures p !in RemoveTab(s, p).wrapperMap
    ensures forall q :: q != p && q in s.wrapperMap ==>
      q in RemoveTab(s, p).wrapperMap && RemoveTab(s, p).wrapperMap[q] == s.wrapperMap[q]
  {
  }

  /** _removeTab as written deletes the pane's tab from the strip, keeping the
      order of the others, and deletes the pane's entries in `tabMap`, `paneMap`
      and `displayMap`; the maps stay inverse and `wrapperMap` is untouched. */
  lemma RemoveTabUnregisters(s: State, p: Pane)
    requires Valid(s) && p in s.paneMap
    ensures var r := RemoveTabAsWritten(s, p); var t := s.paneMap[p];
      && Valid(r)
      && (exists i :: 0 <= i < |s.strip| && s.strip[i] == t && r.strip == s.strip[..i] + s.strip[i + 1..])
      && (forall k :: k in r.strip <==> k in s.strip && k != t)
      && r.tabMap == s.tabMap - {t}
      && r.paneMap == s.paneMap - {p}
      && r.displayMap == s.displayMap - {p}
      && r.wrapperMap == s.wrapperMap
  {
    var t := s.paneMap[p];
    var i :| 0 <= i < |s.strip| && s.strip[i] == t;
    WithoutAt(s.strip, i);
    WithoutMembers(s.strip, t);
  }

  /** The fallback selection of _removeTab. Removing a pane without `active`
      changes no selection state. Removing one with `active` passes the new last
      tab to setTabStatus: if that is not the selected tab it becomes the one
      active tab, shown with its display snapshot; if it already is the selected
      tab, setTabStatus does nothing at all. */
  lemma RemoveTabFallback(s: State, p: Pane)
    requires Valid(s) && p in s.paneMap
    ensures var r := RemoveTabAsWritten(s, p); var last := LastTab(r.strip);
      && (!Lookup(s.panes, p).active ==>
            r.selected == s.selected && r.tabActive == s.tabActive && r.panes == s.panes)
      && (Lookup(s.panes, p).active && last == s.selected ==>
            r.selected == s.selected && r.tabActive == s.tabActive && r.panes == s.panes)
      && (Lookup(s.panes, p).active && last != s.selected ==>
            && r.selected == last
            && (forall k :: k in r.strip ==> (k in r.tabActive <==> Some(k) == last))
            && AtMostOneActive(r)
            && (last.Some? ==>
                  Lookup(r.panes, r.tabMap[last.value])
                  == Activated(Lookup(s.panes, r.tabMap[last.value]), r.displayMap[r.tabMap[last.value]])))
  {
    var s1 := Detach(s, p);
    var last := LastTab(s1.strip);
    if Lookup(s.panes, p).active && last != s.selected {
      SetTabStatusFrame(s1, last);
      SetTabStatusEffect(s1, last);
      SetTabStatusAtMostOneActive(s1, last);
      var r := RemoveTabAsWritten(s, p);
      assert r == SetTabStatus(s1, last);
      forall k | k in r.strip ensures k in r.tabActive <==> Some(k) == last {
        var i :| 0 <= i < |s1.strip| && s1.strip[i] == k;
      }
      if last.Some? {
        assert s1.tabMap[last.value] != p;
      }
    }
  }

  /** Every recorded wrapper belongs to a pane that is still registered. */
  predicate WrappersRegistered(s: State)
  {
    forall q :: q in s.wrapperMap ==> q in s.paneMap
  }

  lemma AddTabKeepsWrappers(s: State, p: Pane, w: Option<Node>)
    requires Valid(s) && WrappersRegistered(s)
    ensures WrappersRegistered(AddTab(s, p, w))
  {
    AddTabRegisters(s, p, w);
  }

  lemma RemoveTabKeepsWrappers(s: State, p: Pane)
    requires Valid(s) && WrappersRegistered(s) && p in s.paneMap
    ensures WrappersRegistered(RemoveTab(s, p))
  {
    RemoveTabUnregisters(s, p);
    RemoveTabClearsWrapper(s, p);
  }

  /** As written, removing a pane that came with a wrapper leaves a wrapper
      behind for a pane that is no longer registered. */
  lemma RemoveTabAsWrittenLeavesWrapper(s: State, p: Pane)
    requires Valid(s) && p in s.paneMap && p in s.wrapperMap
    ensures var r := RemoveTabAsWritten(s, p);
      p !in r.paneMap && p in r.wrapperMap && r.wrapperMap[p] == s.wrapperMap[p]
    ensures !WrappersRegistered(RemoveTabAsWritten(s, p))
  {
    RemoveTabUnregisters(s, p);
  }

  /** Adding a new pane and removing it again restores the strip, both maps
      and the display snapshots. As written, the wrapper the pane came with
      stays recorded; with the entry deleted on removal, none is left. */
  lemma AddRemoveRoundTrip(s: State, p: Pane, w: Option<Node>)
    requires Valid(s) && p !in s.paneMap
    ensures var s1 := AddTab(s, p, w); Valid(s1) && p in s1.paneMap
    ensures var r := RemoveTabAsWritten(AddTab(s, p, w), p);
      && r.strip == s.strip && r.tabMap == s.tabMap && r.paneMap == s.paneMap
      && r.displayMap == s.displayMap
      && r.wrapperMap == (if w.Some? then s.wrapperMap[p := w.value] else s.wrapperMap)
    ensures RemoveTab(AddTab(s, p, w), p).wrapperMap == s.wrapperMap - {p}
  {
    AddTabRegisters(s, p, w);
    RemoveAfterAdd(s, p, w, AddTab(s, p, w));
    ClearedAfterAdd(s, p, w, AddTab(s, p, w));
  }

  /** Removing `p` from a state `s1` whose registry is that of `s` with `p` added. */
  lemma RemoveAfterAdd(s: State, p: Pane, w: Option<Node>, s1: State)
    requires Valid(s) && p !in s.paneMap && Valid(s1)
    requires s1.strip == s.strip + [s.nextTab]
    requires s1.tabMap == s.tabMap[s.nextTab := p] && s1.paneMap == s.paneMap[p := s.nextTab]
    requires s1.wrapperMap == (if w.Some? then s.wrapperMap[p := w.value] else s.wrapperMap)
    requires s1.displayMap == s.displayMap[p := Lookup(s.panes, p).display]
    ensures p in s1.paneMap
    ensures var r := RemoveTabAsWritten(s1, p);
      && r.strip == s.strip && r.tabMap == s.tabMap && r.paneMap == s.paneMap
      && r.displayMap == s.displayMap && r.wrapperMap == s1.wrapperMap
  {
    RemoveTabUnregisters(s1, p);
    RoundTripFields(s, p, s1, RemoveTabAsWritten(s1, p));
  }

  /** With the entry deleted on removal, no wrapper of `p` is left in a state
      `s1` whose wrappers are those of `s` with `p`'s added. */
  lemma ClearedAfterAdd(s: State, p: Pane, w: Option<Node>, s1: State)
    requires Valid(s1) && p in s1.paneMap
    requires s1.wrapperMap == (if w.Some? then s.wrapperMap[p := w.value] else s.wrapperMap)
    ensures RemoveTab(s1, p).wrapperMap == s.wrapperMap - {p}
  {
    if w.Some? {
      UpdateRemove(s.wrapperMap, p, w.value);
    }
  }

  /** The registry fields after adding and then removing a new pane. */
  lemma RoundTripFields(s: State, p: Pane, s1: State, r: State)
    requires Valid(s) && p !in s.paneMap
    requires s1.strip == s.strip + [s.nextTab]
    requires s1.tabMap == s.tabMap[s.nextTab := p] && s1.paneMap == s.paneMap[p := s.nextTab]
    requires s1.displayMap == s.displayMap[p := Lookup(s.panes, p).display]
    requires p in s1.paneMap
    requires exists i :: 0 <= i < |s1.strip| && s1.strip[i] == s1.paneMap[p] &&
                         r.strip == s1.strip[..i] + s1.strip[i + 1..]
    requires r.tabMap == s1.tabMap - {s1.paneMap[p]} && r.paneMap == s1.paneMap - {p}
    requires r.displayMap == s1.displayMap - {p}
    ensures r.strip == s.strip && r.tabMap == s.tabMap && r.paneMap == s.paneMap
    ensures r.displayMap == s.displayMap
  {
    var t := s.nextTab;
    assert t !in s.strip && t !in s.tabMap;
    assert p !in s.displayMap;
    StripRoundTrip(s.strip, t, r.strip);
    AddRemove(s.tabMap, t, p);
    AddRemove(s.paneMap, p, t);
    AddRemove(s.displayMap, p, Lookup(s.panes, p).display);
  }

  lemma AddRemove<K, V>(m: map<K, V>, k: K, v: V)
    requires k !in m
    ensures m[k := v] - {k} == m
  {
  }

  lemma UpdateRemove<K, V>(m: map<K, V>, k: K, v: V)
    ensures m[k := v] - {k} == m - {k}
  {
  }

  lemma StripRoundTrip(xs: seq<Tab>, t: Tab, ys: seq<Tab>)
    requires t !in xs
    requires exists i :: 0 <= i < |xs + [t]| && (xs + [t])[i] == t && ys == (xs + [t])[..i] + (xs + [t])[i + 1..]
    ensures ys == xs
  {
    var i :| 0 <= i < |xs + [t]| && (xs + [t])[i] == t && ys == (xs + [t])[..i] + (xs + [t])[i + 1..];
    assert i == |xs| by {
      if i < |xs| { assert false; }
    }
    assert (xs + [t])[..i] == xs;
  }

  // ---------------------------------------------------------------------------
  // createTabs

  /** One pass of the createTabs loop: makeTab, append, register in both maps;
      the first pane is made active, every later one only gets display `none`. */
  function CreateOne(s: State, p: Pane, first: bool): State
  {
    var t := s.nextTab;
    var s1 := MakeTab(s, p);
    var s2 := s1.(strip := s1.strip + [t], tabMap := s1.tabMap[t := p], paneMap := s1.paneMap[p := t]);
    if first then MakeActive(s2, t)
    else s2.(panes := s2.panes[p := Lookup(s2.panes, p).(display := "none")])
  }

  /** The fields of `r` are those of `s` after one pass of createTabs over `p`. */
  ghost predicate OneMore(s: State, p: Pane, first: bool, r: State)
  {
    var t := s.nextTab;
    && r.strip == s.strip + [t]
    && r.tabMap == s.tabMap[t := p]
    && r.paneMap == s.paneMap[p := t]
    && r.displayMap == s.displayMap[p := Lookup(s.panes, p).display]
    && r.nextTab == t + 1
    && r.closeButton == SyncButton(s.closeButton, t, Lookup(s.panes, p).closable)
    && r.labels == s.labels[t := TitleOf(Lookup(s.panes, p))]
    && r.selected == s.selected && r.wrapperMap == s.wrapperMap
    && r.tabActive == (if first then s.tabActive + {t} else s.tabActive)
    && r.panes == s.panes[p := if first then Activated(Lookup(s.panes, p), Lookup(s.panes, p).display)
                               else Lookup(s.panes, p).(display := "none")]
  }

  lemma CreateOneEffect(s: State, p: Pane, first: bool)
    ensures OneMore(s, p, first, CreateOne(s, p, first))
  {
  }

  lemma CreateOneValid(s: State, p: Pane, first: bool)
    requires Valid(s) && p !in s.paneMap
    ensures Valid(CreateOne(s, p, first))
  {
    CreateOneEffect(s, p, first);
    AppendValid(s, CreateOne(s, p, first), p);
  }

  /** The registry invariant holds and `ps` are distinct panes without a tab:
      the situation of the first connect. */
  ghost predicate FirstScan(s: State, ps: seq<Pane>)
  {
    Valid(s) && Distinct(ps) && forall i :: 0 <= i < |ps| ==> ps[i] !in s.paneMap
  }

  /** createTabs over the panes `ps` found by `querySelectorAll('x-tab')`. */
  function CreateTabs(s: State, ps: seq<Pane>): State
    decreases |ps|
  {
    if ps == [] then s
    else
      var n := |ps| - 1;
      CreateOne(CreateTabs(s, ps[..n]), ps[n], n == 0)
  }

  /** The `n` tab ids handed out from `lo` on, in order. */
  function Fresh(lo: Tab, n: nat): (r: seq<Tab>)
    ensures |r| == n && forall i :: 0 <= i < n ==> r[i] == lo + i
  {
    if n == 0 then [] else Fresh(lo, n - 1) + [lo + n - 1]
  }

  lemma FreshSnoc(lo: Tab, n: nat)
    ensures Fresh(lo, n + 1) == Fresh(lo, n) + [lo + n]
  {
  }

  /** What the first `k` passes of createTabs over `ps` have done to `s`. */
  ghost predicate Created(s: State, ps: seq<Pane>, k: nat, r: State)
    requires k <= |ps|
  {
    CreatedTabs(s, ps, k, r) && CreatedPanes(s, ps, k, r)
  }

  /** One fresh tab per pane appended in order and registered in both maps with
      the pane's display snapshot; no wrapper recorded; `selected` untouched. */
  ghost predicate CreatedTabs(s: State, ps: seq<Pane>, k: nat, r: State)
    requires k <= |ps|
  {
    && r.strip == s.strip + Fresh(s.nextTab, k)
    && r.nextTab == s.nextTab + k
    && r.selected == s.selected && r.wrapperMap == s.wrapperMap
    && Listed(s, ps, k, r)
  }

  /** The `i`-th pane is registered with the `i`-th fresh tab and its display snapshot. */
  ghost predicate Listed(s: State, ps: seq<Pane>, k: nat, r: State)
    requires k <= |ps|
  {
    forall i :: 0 <= i < k ==> PaneListed(s, r, ps[i], s.nextTab + i)
  }

  /** Pane `p` and tab `t` are registered with each other in `r`, with the display
      `p` had in `s`. */
  ghost predicate PaneListed(s: State, r: State, p: Pane, t: Tab)
  {
    && t in r.tabMap && r.tabMap[t] == p
    && p in r.paneMap && r.paneMap[p] == t
    && p in r.displayMap && r.displayMap[p] == Lookup(s.panes, p).display
  }

  /** The first pane's tab is the only new active tab and that pane is shown
      with its own display and marked `active`; every later pane only gets
      display `none`; no other pane is touched. */
  ghost predicate CreatedPanes(s: State, ps: seq<Pane>, k: nat, r: State)
    requires k <= |ps|
  {
    && r.tabActive == s.tabActive + (if k == 0 then {} else {s.nextTab})
    && (k > 0 ==> Lookup(r.panes, ps[0]) == Activated(Lookup(s.panes, ps[0]), Lookup(s.panes, ps[0]).display))
    && (forall i :: 0 < i < k ==> Lookup(r.panes, ps[i]) == Lookup(s.panes, ps[i]).(display := "none"))
    && (forall q :: q !in ps[..k] ==> Lookup(r.panes, q) == Lookup(s.panes, q))
  }

  lemma FirstNew(ps: seq<Pane>, k: nat)
    requires Distinct(ps) && k < |ps|
    ensures ps[k] !in ps[..k]
  {
    forall i | 0 <= i < k ensures ps[..k][i] != ps[k] { }
  }

  lemma CreatedTabsStep(s: State, ps: seq<Pane>, k: nat, r: State, r': State)
    requires Distinct(ps) && k < |ps| && CreatedTabs(s, ps, k, r)
    requires Lookup(r.panes, ps[k]) == Lookup(s.panes, ps[k])
    requires OneMore(r, ps[k], k == 0, r')
    ensures CreatedTabs(s, ps, k + 1, r')
  {
    CreatedStripStep(s, k, r, r');
    ListedStep(s, ps, k, r, r');
  }

  lemma CreatedStripStep(s: State, k: nat, r: State, r': State)
    requires r.strip == s.strip + Fresh(s.nextTab, k) && r.nextTab == s.nextTab + k
    requires r'.strip == r.strip + [r.nextTab] && r'.nextTab == r.nextTab + 1
    ensures r'.strip == s.strip + Fresh(s.nextTab, k + 1) && r'.nextTab == s.nextTab + k + 1
  {
    FreshSnoc(s.nextTab, k);
    assert r'.strip == (s.strip + Fresh(s.nextTab, k)) + [s.nextTab + k];
  }

  lemma ListedStep(s: State, ps: seq<Pane>, k: nat, r: State, r': State)
    requires Distinct(ps) && k < |ps|
    requires r.nextTab == s.nextTab + k && Listed(s, ps, k, r)
    requires Lookup(r.panes, ps[k]) == Lookup(s.panes, ps[k])
    requires r'.tabMap == r.tabMap[r.nextTab := ps[k]] && r'.paneMap == r.paneMap[ps[k] := r.nextTab]
    requires r'.displayMap == r.displayMap[ps[k] := Lookup(r.panes, ps[k]).display]
    ensures Listed(s, ps, k + 1, r')
  {
    forall i | 0 <= i < k + 1
      ensures PaneListed(s, r', ps[i], s.nextTab + i)
    {
      if i < k {
        assert ps[i] != ps[k];
        assert PaneListed(s, r, ps[i], s.nextTab + i);
      }
    }
  }

  lemma CreatedPanesStep(s: State, ps: seq<Pane>, k: nat, r: State, r': State)
    requires Distinct(ps) && k < |ps| && r.nextTab == s.nextTab + k && CreatedPanes(s, ps, k, r)
    requires ps[k] !in ps[..k] && Lookup(r.panes, ps[k]) == Lookup(s.panes, ps[k])
    requires OneMore(r, ps[k], k == 0, r')
    ensures CreatedPanes(s, ps, k + 1, r')
  {
    if k > 0 {
      assert ps[0] != ps[k];
    }
    forall i | 0 < i < k + 1
      ensures Lookup(r'.panes, ps[i]) == Lookup(s.panes, ps[i]).(display := "none")
    {
      if i < k { assert ps[i] != ps[k]; }
    }
    forall q | q !in ps[..k + 1] ensures Lookup(r'.panes, q) == Lookup(s.panes, q) {
      assert q != ps[k] by { assert ps[..k + 1][k] == ps[k]; }
      assert q !in ps[..k] by {
        forall i | 0 <= i < k ensures ps[..k][i] != q { assert ps[..k + 1][i] == ps[..k][i]; }
      }
    }
  }

  lemma CreatedStep(s: State, ps: seq<Pane>, k: nat, r: State)
    requires Distinct(ps) && k < |ps| && Created(s, ps, k, r)
    ensures Created(s, ps, k + 1, CreateOne(r, ps[k], k == 0))
  {
    var r' := CreateOne(r, ps[k], k == 0);
    CreateOneEffect(r, ps[k], k == 0);
    FirstNew(ps, k);
    assert Lookup(r.panes, ps[k]) == Lookup(s.panes, ps[k]);
    CreatedTabsStep(s, ps, k, r, r');
    CreatedPanesStep(s, ps, k, r, r');
  }

  /** createTabs over one more pane is one more pass. */
  lemma CreateTabsSnoc(s: State, ps: seq<Pane>, k: nat)
    requires k < |ps|
    ensures CreateTabs(s, ps[..k + 1]) == CreateOne(CreateTabs(s, ps[..k]), ps[k], k == 0)
  {
    assert ps[..k + 1][..k] == ps[..k];
  }

  /** Created speaks of the first `k` panes only. */
  lemma CreatedPrefix(s: State, ps: seq<Pane>, k: nat, r: State)
    requires k <= |ps| && Created(s, ps[..k], k, r)
    ensures Created(s, ps, k, r)
  {
    assert ps[..k][..k] == ps[..k];
    assert forall i :: 0 <= i < k ==> ps[..k][i] == ps[i];
  }

  lemma CreatedNone(s: State, ps: seq<Pane>)
    ensures Created(s, ps, 0, s)
  {
    assert Fresh(s.nextTab, 0) == [];
    assert s.strip + [] == s.strip;
  }

  /** createTabs over distinct panes does, pane by pane, what Created says. */
  lemma {:induction false} CreateTabsCreated(s: State, ps: seq<Pane>)
    requires Distinct(ps)
    ensures Created(s, ps, |ps|, CreateTabs(s, ps))
    decreases |ps|
  {
    if ps == [] {
      CreatedNone(s, ps);
    } else {
      var n := |ps| - 1;
      DistinctInit(ps);
      CreateTabsCreated(s, ps[..n]);
      CreatedPrefix(s, ps, n, CreateTabs(s, ps[..n]));
      CreatedStep(s, ps, n, CreateTabs(s, ps[..n]));
    }
  }

  /** After `k` passes over distinct panes that had no tab, the registry
      invariant holds and exactly those `k` panes were added to it. */
  ghost predicate Grown(s: State, ps: seq<Pane>, k: nat, r: State)
    requires k <= |ps|
  {
    Valid(r) && forall q :: q in r.paneMap <==> q in s.paneMap || q in ps[..k]
  }

  lemma GrownKeys(s: State, ps: seq<Pane>, k: nat, r: State)
    requires k < |ps| && forall q :: q in r.paneMap <==> q in s.paneMap || q in ps[..k]
    ensures forall q :: q in CreateOne(r, ps[k], k == 0).paneMap <==> q in s.paneMap || q in ps[..k + 1]
  {
    CreateOneEffect(r, ps[k], k == 0);
    assert ps[..k + 1] == ps[..k] + [ps[k]];
  }

  lemma GrownStep(s: State, ps: seq<Pane>, k: nat, r: State)
    requires Distinct(ps) && k < |ps| && (forall i :: 0 <= i < |ps| ==> ps[i] !in s.paneMap)
    requires Grown(s, ps, k, r)
    ensures Grown(s, ps, k + 1, CreateOne(r, ps[k], k == 0))
  {
    FirstNew(ps, k);
    assert ps[k] !in s.paneMap;
    CreateOneValid(r, ps[k], k == 0);
    GrownKeys(s, ps, k, r);
  }

  /** Grown speaks of the first `k` panes only. */
  lemma GrownPrefix(s: State, ps: seq<Pane>, k: nat, r: State)
    requires k <= |ps| && Grown(s, ps[..k], k, r)
    ensures Grown(s, ps, k, r)
  {
    assert ps[..k][..k] == ps[..k];
  }

  lemma UnregisteredPrefix(s: State, ps: seq<Pane>, k: nat)
    requires k <= |ps| && forall i :: 0 <= i < |ps| ==> ps[i] !in s.paneMap
    ensures forall i :: 0 <= i < |ps[..k]| ==> ps[..k][i] !in s.paneMap
  {
    assert forall i :: 0 <= i < k ==> ps[..k][i] == ps[i];
  }

  lemma {:induction false} CreateTabsGrown(s: State, ps: seq<Pane>)
    requires Valid(s) && Distinct(ps) && (forall i :: 0 <= i < |ps| ==> ps[i] !in s.paneMap)
    ensures Grown(s, ps, |ps|, CreateTabs(s, ps))
    decreases |ps|
  {
    if ps != [] {
      var n := |ps| - 1;
      DistinctInit(ps);
      UnregisteredPrefix(s, ps, n);
      CreateTabsGrown(s, ps[..n]);
      GrownPrefix(s, ps, n, CreateTabs(s, ps[..n]));
      GrownStep(s, ps, n, CreateTabs(s, ps[..n]));
    }
  }

  /** createTabs over distinct panes without tabs keeps the registry invariant
      and registers exactly those panes besides the ones already registered. */
  lemma CreateTabsValid(s: State, ps: seq<Pane>)
    requires Valid(s) && Distinct(ps) && (forall i :: 0 <= i < |ps| ==> ps[i] !in s.paneMap)
    ensures Valid(CreateTabs(s, ps))
    ensures forall q :: q in CreateTabs(s, ps).paneMap <==> q in s.paneMap || q in ps
  {
    CreateTabsGrown(s, ps);
    assert ps[..|ps|] == ps;
  }
}
