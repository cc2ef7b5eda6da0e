/**
  The selection controller of src/web-components/Tabs.js: makeActive, makeInactive
  and setTabStatus, as functions on the container's State.
 */
module Selection {
  import opened Dom
  import opened Model

  /** A pane shown again: its display is the snapshot, it carries `active`. */
  function Activated(ps: PaneState, natural: string): PaneState
  {
    ps.(display := natural, active := true)
  }

  /** A pane hidden: display `none`, no `active` attribute. */
  function Deactivated(ps: PaneState): PaneState
  {
    ps.(display := "none", active := false)
  }

  /** `r` differs from `s` at most in the tabs' classes and the panes' attributes. */
  predicate SameRegistry(r: State, s: State)
  {
    r == s.(tabActive := r.tabActive, panes := r.panes)
  }

  /** makeActive(tab): the tab gets the `active` class, its pane gets back the
      display snapshotted when the tab was made, and the `active` attribute. */
  function MakeActive(s: State, t: Tab): (r: State)
    requires Registered(s, t)
    ensures SameRegistry(r, s)
    ensures r.tabActive == s.tabActive + {t}
    ensures Lookup(r.panes, s.tabMap[t]) == Activated(Lookup(s.panes, s.tabMap[t]), s.displayMap[s.tabMap[t]])
    ensures forall q :: q != s.tabMap[t] ==> Lookup(r.panes, q) == Lookup(s.panes, q)
  {
    var p := s.tabMap[t];
    s.(tabActive := s.tabActive + {t},
       panes := s.panes[p := Activated(Lookup(s.panes, p), s.displayMap[p])])
  }

  /** makeInactive(tab): the tab loses the `active` class, its pane is hidden
      and loses the `active` attribute. */
  function MakeInactive(s: State, t: Tab): (r: State)
    requires t in s.tabMap
    ensures SameRegistry(r, s)
    ensures r.tabActive == s.tabActive - {t}
    ensures Lookup(r.panes, s.tabMap[t]) == Deactivated(Lookup(s.panes, s.tabMap[t]))
    ensures forall q :: q != s.tabMap[t] ==> Lookup(r.panes, q) == Lookup(s.panes, q)
  {
    var p := s.tabMap[t];
    s.(tabActive := s.tabActive - {t},
       panes := s.panes[p := Deactivated(Lookup(s.panes, p))])
  }

  /** Activate, deactivate, activate again: the state is the one the first
      activation produced, so the pane's display is again exactly its snapshot. */
  lemma ActivateRoundTrip(s: State, t: Tab)
    requires Registered(s, t)
    ensures Lookup(MakeInactive(MakeActive(s, t), t).panes, s.tabMap[t]).display == "none"
    ensures MakeActive(MakeInactive(MakeActive(s, t), t), t) == MakeActive(s, t)
    ensures Lookup(MakeActive(MakeInactive(MakeActive(s, t), t), t).panes, s.tabMap[t]).display
            == s.displayMap[s.tabMap[t]]
  {
    var p := s.tabMap[t];
    var s1 := MakeActive(s, t);
    var s2 := MakeInactive(s1, t);
    var s3 := MakeActive(s2, t);
    assert s3.panes == s1.panes;
  }

  /** One step of the loops over the tabs in setTabStatus and _addTab. */
  function StatusStep(s: State, k: Tab, a: Option<Tab>): State
    requires Registered(s, k)
  {
    if a == Some(k) then MakeActive(s, k) else MakeInactive(s, k)
  }

  /** Every tab of `tabs` in turn: `a` is made active, every other one inactive. */
  function ApplyStatus(s: State, tabs: seq<Tab>, a: Option<Tab>): (r: State)
    requires forall i :: 0 <= i < |tabs| ==> Registered(s, tabs[i])
    ensures SameRegistry(r, s)
    decreases |tabs|
  {
    if tabs == [] then s
    else
      var n := |tabs| - 1;
      assert forall i :: 0 <= i < n ==> tabs[..n][i] == tabs[i];
      var r0 := ApplyStatus(s, tabs[..n], a);
      assert r0.tabMap == s.tabMap && r0.displayMap == s.displayMap;
      assert Registered(s, tabs[n]);
      assert Registered(r0, tabs[n]);
      StatusStep(r0, tabs[n], a)
  }

  /** The panes of the registered tabs among `tabs`. */
  function PanesOf(tabMap: map<Tab, Pane>, tabs: seq<Tab>): set<Pane>
  {
    set i | 0 <= i < |tabs| && tabs[i] in tabMap :: tabMap[tabs[i]]
  }

  /** The tabs of `tabs` belong to pairwise different panes. */
  predicate PanesDistinct(tabMap: map<Tab, Pane>, tabs: seq<Tab>)
  {
    forall i, j :: 0 <= i < j < |tabs| && tabs[i] in tabMap && tabs[j] in tabMap ==>
      tabMap[tabs[i]] != tabMap[tabs[j]]
  }

  /** What a pane of tab `k` looks like after the loop with `a` as the active tab. */
  function StatusOf(s: State, k: Tab, a: Option<Tab>): PaneState
    requires Registered(s, k)
  {
    var p := s.tabMap[k];
    if a == Some(k) then Activated(Lookup(s.panes, p), s.displayMap[p])
    else Deactivated(Lookup(s.panes, p))
  }

  /** The loop sets the `active` class on `a` alone among the tabs it visits
      and leaves the class of every other tab as it was. */
  lemma {:induction false} ApplyStatusClasses(s: State, tabs: seq<Tab>, a: Option<Tab>)
    requires forall i :: 0 <= i < |tabs| ==> Registered(s, tabs[i])
    requires Distinct(tabs)
    ensures forall i :: 0 <= i < |tabs| ==>
      (tabs[i] in ApplyStatus(s, tabs, a).tabActive <==> a == Some(tabs[i]))
    ensures forall k :: k !in tabs ==>
      (k in ApplyStatus(s, tabs, a).tabActive <==> k in s.tabActive)
    decreases |tabs|
  {
    if tabs != [] {
      var n := |tabs| - 1;
      var init := tabs[..n];
      assert Distinct(init);
      ApplyStatusClasses(s, init, a);
      var r0 := ApplyStatus(s, init, a);
      var r := ApplyStatus(s, tabs, a);
      assert r == StatusStep(r0, tabs[n], a);
      forall i | 0 <= i < n
        ensures tabs[i] in r.tabActive <==> a == Some(tabs[i])
      {
        assert init[i] == tabs[i];
      }
      forall k | k !in tabs
        ensures k in r.tabActive <==> k in s.tabActive
      {
        assert k !in init;
      }
    }
  }

  /** The loop shows the pane of `a`, hides the pane of every other tab it
      visits and leaves every other pane as it was. */
  lemma {:induction false} ApplyStatusPanes(s: State, tabs: seq<Tab>, a: Option<Tab>)
    requires forall i :: 0 <= i < |tabs| ==> Registered(s, tabs[i])
    requires PanesDistinct(s.tabMap, tabs)
    ensures forall i :: 0 <= i < |tabs| ==>
      Lookup(ApplyStatus(s, tabs, a).panes, s.tabMap[tabs[i]]) == StatusOf(s, tabs[i], a)
    ensures forall q :: q !in PanesOf(s.tabMap, tabs) ==>
      Lookup(ApplyStatus(s, tabs, a).panes, q) == Lookup(s.panes, q)
    decreases |tabs|
  {
    if tabs != [] {
      var n := |tabs| - 1;
      var init := tabs[..n];
      assert PanesDistinct(s.tabMap, init);
      ApplyStatusPanes(s, init, a);
      var r0 := ApplyStatus(s, init, a);
      var r := ApplyStatus(s, tabs, a);
      assert r == StatusStep(r0, tabs[n], a);
      var pl := s.tabMap[tabs[n]];
      forall i | 0 <= i < |init| && init[i] in s.tabMap
        ensures s.tabMap[init[i]] != pl
      {
        assert tabs[i] == init[i];
      }
      assert pl !in PanesOf(s.tabMap, init);
      forall i | 0 <= i < n
        ensures Lookup(r.panes, s.tabMap[tabs[i]]) == StatusOf(s, tabs[i], a)
      {
        assert init[i] == tabs[i];
        assert s.tabMap[tabs[i]] != pl;
      }
      forall q | q in PanesOf(s.tabMap, init)
        ensures q in PanesOf(s.tabMap, tabs)
      {
        var i :| 0 <= i < |init| && init[i] in s.tabMap && s.tabMap[init[i]] == q;
        assert tabs[i] == init[i];
      }
      assert pl in PanesOf(s.tabMap, tabs);
    }
  }

  /** The loop touches exactly the tabs it visits and their panes: the tab `a`
      becomes active, every other visited tab inactive, and nothing else changes. */
  lemma ApplyStatusEffect(s: State, tabs: seq<Tab>, a: Option<Tab>)
    requires forall i :: 0 <= i < |tabs| ==> Registered(s, tabs[i])
    requires Distinct(tabs) && PanesDistinct(s.tabMap, tabs)
    ensures forall i :: 0 <= i < |tabs| ==>
      (tabs[i] in ApplyStatus(s, tabs, a).tabActive <==> a == Some(tabs[i]))
    ensures forall k :: k !in tabs ==>
      (k in ApplyStatus(s, tabs, a).tabActive <==> k in s.tabActive)
    ensures forall i :: 0 <= i < |tabs| ==>
      Lookup(ApplyStatus(s, tabs, a).panes, s.tabMap[tabs[i]]) == StatusOf(s, tabs[i], a)
    ensures forall q :: q !in PanesOf(s.tabMap, tabs) ==>
      Lookup(ApplyStatus(s, tabs, a).panes, q) == Lookup(s.panes, q)
  {
    ApplyStatusClasses(s, tabs, a);
    ApplyStatusPanes(s, tabs, a);
  }

  /** setTabStatus(active): nothing happens when `active` is already the selected
      tab; otherwise `active` becomes the selected tab and the strip is walked. */
  function SetTabStatus(s: State, a: Option<Tab>): (r: State)
    requires StripRegistered(s)
    ensures r == s.(selected := r.selected, tabActive := r.tabActive, panes := r.panes)
    ensures StripRegistered(r)
  {
    if a == s.selected then s
    else ApplyStatus(s, s.strip, a).(selected := a)
  }

  /** The loop over a longer prefix of `tabs` is the loop over the shorter one
      followed by one more step. */
  lemma ApplyStatusSnoc(s: State, tabs: seq<Tab>, i: nat, a: Option<Tab>)
    requires forall j :: 0 <= j < |tabs| ==> Registered(s, tabs[j])
    requires i < |tabs|
    ensures forall j :: 0 <= j < i + 1 ==> tabs[..i + 1][j] == tabs[j]
    ensures Registered(ApplyStatus(s, tabs[..i], a), tabs[i])
    ensures ApplyStatus(s, tabs[..i + 1], a) == StatusStep(ApplyStatus(s, tabs[..i], a), tabs[i], a)
  {
    assert tabs[..i + 1][..i] == tabs[..i];
    assert forall j :: 0 <= j < i ==> tabs[..i][j] == tabs[j];
  }

  /** The steps of the loop do not depend on `selected`, which setTabStatus
      sets before it. */
  lemma StatusStepSelected(s: State, k: Tab, a: Option<Tab>, sel: Option<Tab>)
    requires Registered(s, k)
    ensures StatusStep(s.(selected := sel), k, a) == StatusStep(s, k, a).(selected := sel)
  {
    var p := s.tabMap[k];
    if a == Some(k) {
      assert MakeActive(s.(selected := sel), k).panes == MakeActive(s, k).panes;
    } else {
      assert MakeInactive(s.(selected := sel), k).panes == MakeInactive(s, k).panes;
    }
  }

  /** The loop does not depend on `selected` either. */
  lemma {:induction false} ApplyStatusSelected(s: State, tabs: seq<Tab>, a: Option<Tab>, sel: Option<Tab>)
    requires forall i :: 0 <= i < |tabs| ==> Registered(s, tabs[i])
    ensures forall i :: 0 <= i < |tabs| ==> Registered(s.(selected := sel), tabs[i])
    ensures ApplyStatus(s.(selected := sel), tabs, a) == ApplyStatus(s, tabs, a).(selected := sel)
    decreases |tabs|
  {
    if tabs != [] {
      var n := |tabs| - 1;
      ApplyStatusSnoc(s, tabs, n, a);
      ApplyStatusSnoc(s.(selected := sel), tabs, n, a);
      ApplyStatusSelected(s, tabs[..n], a, sel);
      assert tabs[..n + 1] == tabs;
      StatusStepSelected(ApplyStatus(s, tabs[..n], a), tabs[n], a, sel);
    }
  }

  lemma ValidPanesDistinct(s: State)
    requires Valid(s)
    ensures PanesDistinct(s.tabMap, s.strip)
    ensures PanesOf(s.tabMap, s.strip) == s.paneMap.Keys
  {
    forall p | p in s.paneMap ensures p in PanesOf(s.tabMap, s.strip) {
      var t := s.paneMap[p];
      var i :| 0 <= i < |s.strip| && s.strip[i] == t;
    }
  }

  lemma SetTabStatusNoop(s: State, a: Option<Tab>)
    requires StripRegistered(s) && a == s.selected
    ensures SetTabStatus(s, a) == s
  {
  }

  /** setTabStatus(a) with a new `a` changes the selection, the tabs' classes
      and the panes' attributes, and nothing else; the registry invariant holds. */
  lemma SetTabStatusFrame(s: State, a: Option<Tab>)
    requires Valid(s) && a != s.selected
    ensures var r := SetTabStatus(s, a);
      && r.selected == a
      && r == s.(selected := a, tabActive := r.tabActive, panes := r.panes)
      && Valid(r)
  {
    ValidStripRegistered(s);
    ValidPanesDistinct(s);
    ApplyStatusEffect(s, s.strip, a);
  }

  /** setTabStatus keeps the registry invariant, whatever its argument. */
  lemma SetTabStatusValid(s: State, a: Option<Tab>)
    requires Valid(s)
    ensures StripRegistered(s) && Valid(SetTabStatus(s, a))
  {
    ValidStripRegistered(s);
    if a != s.selected {
      SetTabStatusFrame(s, a);
    }
  }

  /** After setTabStatus(a) with a new `a`: the tab `a` (when it is in the strip)
      is the only active tab of the strip and its pane is shown with its
      snapshotted display; every other tab of the strip is inactive and its
      pane hidden; panes outside the registry are untouched. */
  lemma SetTabStatusEffect(s: State, a: Option<Tab>)
    requires Valid(s) && a != s.selected
    ensures var r := SetTabStatus(s, a);
      && (forall i :: 0 <= i < |s.strip| ==> (s.strip[i] in r.tabActive <==> a == Some(s.strip[i])))
      && (forall i :: 0 <= i < |s.strip| ==>
            Lookup(r.panes, s.tabMap[s.strip[i]]) == StatusOf(s, s.strip[i], a))
      && (a.Some? && a.value in s.strip ==>
            Lookup(r.panes, s.tabMap[a.value])
            == Activated(Lookup(s.panes, s.tabMap[a.value]), s.displayMap[s.tabMap[a.value]]))
      && (forall q :: q !in s.paneMap ==> Lookup(r.panes, q) == Lookup(s.panes, q))
  {
    ValidStripRegistered(s);
    ValidPanesDistinct(s);
    var r := SetTabStatus(s, a);
    ApplyStatusEffect(s, s.strip, a);
    if a.Some? && a.value in s.strip {
      var i :| 0 <= i < |s.strip| && s.strip[i] == a.value;
      assert Lookup(r.panes, s.tabMap[s.strip[i]]) == StatusOf(s, s.strip[i], a);
    }
  }

  /** After setTabStatus(a) with a new `a`, at most one tab of the strip is
      active and at most one registered pane carries `active`. */
  lemma SetTabStatusAtMostOneActive(s: State, a: Option<Tab>)
    requires Valid(s) && a != s.selected
    ensures AtMostOneActive(SetTabStatus(s, a))
  {
    SetTabStatusFrame(s, a);
    SetTabStatusEffect(s, a);
    ValidStripRegistered(s);
    OneActiveAfter(s, a, SetTabStatus(s, a));
  }

  /** AtMostOneActive for any `r` over the registry of `s` whose classes and panes
      are what the loop of setTabStatus(a) leaves. */
  lemma OneActiveAfter(s: State, a: Option<Tab>, r: State)
    requires Distinct(s.strip) && StripRegistered(s) && Inverse(s.tabMap, s.paneMap)
    requires StripOf(s.strip, s.tabMap, s.nextTab)
    requires r.strip == s.strip && r.tabMap == s.tabMap && r.paneMap == s.paneMap
    requires forall i :: 0 <= i < |s.strip| ==> (s.strip[i] in r.tabActive <==> a == Some(s.strip[i]))
    requires forall i :: 0 <= i < |s.strip| && Registered(s, s.strip[i]) ==>
      Lookup(r.panes, s.tabMap[s.strip[i]]) == StatusOf(s, s.strip[i], a)
    ensures AtMostOneActive(r)
  {
    var pa := if a.Some? && a.value in s.tabMap then Some(s.tabMap[a.value]) else None;
    forall q | q in r.paneMap && Lookup(r.panes, q).active
      ensures Some(q) == pa
    {
      var i :| 0 <= i < |s.strip| && s.strip[i] == s.paneMap[q];
      assert Registered(s, s.strip[i]);
      assert StatusOf(s, s.strip[i], a).active;
    }
    OnlyActive(r, a, pa);
  }

  /** Selecting a tab of the strip that is not the selected one shows its pane
      with its snapshot and hides the panes of the other tabs of the strip. */
  lemma SelectShows(s: State, a: Tab, b: Tab)
    requires Valid(s) && a in s.strip && b in s.strip && a != b && s.selected != Some(a)
    ensures var r := SetTabStatus(s, Some(a));
      && Valid(r) && r.selected == Some(a)
      && r.tabMap == s.tabMap && r.displayMap == s.displayMap && r.strip == s.strip
      && Lookup(r.panes, s.tabMap[a]).display == s.displayMap[s.tabMap[a]]
      && Lookup(r.panes, s.tabMap[a]).active
      && Lookup(r.panes, s.tabMap[b]).display == "none"
  {
    SetTabStatusFrame(s, Some(a));
    SetTabStatusEffect(s, Some(a));
    ValidStripRegistered(s);
    HiddenOther(s, a, b, SetTabStatus(s, Some(a)));
  }

  /** The loop with `a` as the active tab hides the pane of any other tab `b`. */
  lemma HiddenOther(s: State, a: Tab, b: Tab, r: State)
    requires StripRegistered(s) && b in s.strip && a != b
    requires forall i :: 0 <= i < |s.strip| && Registered(s, s.strip[i]) ==>
      Lookup(r.panes, s.tabMap[s.strip[i]]) == StatusOf(s, s.strip[i], Some(a))
    ensures b in s.tabMap && Lookup(r.panes, s.tabMap[b]).display == "none"
  {
    var j :| 0 <= j < |s.strip| && s.strip[j] == b;
    assert Registered(s, s.strip[j]);
  }

  /** Selecting A, then B, then A again shows A's pane with exactly the display
      it was snapshotted with, and hides B's. */
  lemma SelectRoundTrip(s: State, a: Tab, b: Tab)
    requires Valid(s) && a in s.strip && b in s.strip && a != b
    ensures var r := SetTabStatus(SetTabStatus(SetTabStatus(s, Some(a)), Some(b)), Some(a));
      && r.displayMap == s.displayMap
      && Lookup(r.panes, s.tabMap[a]).display == s.displayMap[s.tabMap[a]]
      && Lookup(r.panes, s.tabMap[a]).active
      && Lookup(r.panes, s.tabMap[b]).display == "none"
      && r.selected == Some(a)
  {
    var s1 := SetTabStatus(s, Some(a));
    if s.selected != Some(a) {
      SelectShows(s, a, b);
    }
    assert Valid(s1) && s1.selected == Some(a);
    assert s1.tabMap == s.tabMap && s1.displayMap == s.displayMap && s1.strip == s.strip;
    SelectShows(s1, b, a);
    var s2 := SetTabStatus(s1, Some(b));
    SelectShows(s2, a, b);
  }
}
