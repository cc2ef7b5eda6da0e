/**
  handleMutations of src/web-components/Tabs.js: a batch of MutationObserver
  records becomes an ordered list of handlers, and each handler node is
  classified as a pane, a wrapper holding a pane, or irrelevant.
 */
module Reconciler {
  import opened Dom
  import opened Model
  import opened Registry

  /** One mutation record: its type is `childList` or not, with the nodes it
      added and removed in order. */
  datatype Record = Record(childList: bool, added: seq<DomNode>, removed: seq<DomNode>)

  datatype Kind = Add | Remove

  /** One entry of the `handlers` list: `['add', node]` or `['remove', node]`. */
  datatype Handler = Handler(kind: Kind, node: DomNode)

  /** What a handler asks the registry to do. */
  datatype Action = AddPane(pane: Pane, wrapper: Option<Node>) | RemovePane(pane: Pane)

  /** The handlers of one record: every added node, then every removed node;
      records of other types contribute nothing. */
  function RecordHandlers(m: Record): seq<Handler>
  {
    if m.childList then Tagged(Add, m.added) + Tagged(Remove, m.removed) else []
  }

  /** A `childList` record yields its added nodes in order, then its removed
      nodes in order; a record of another type yields nothing. */
  lemma RecordHandlersOrder(m: Record)
    ensures var hs := RecordHandlers(m);
      && (m.childList ==> |hs| == |m.added| + |m.removed|)
      && (!m.childList ==> hs == [])
      && (forall i :: 0 <= i < |hs| ==>
            if i < |m.added| then hs[i] == Handler(Add, m.added[i])
            else hs[i] == Handler(Remove, m.removed[i - |m.added|]))
  {
  }

  /** Every node of `nodes`, in order, tagged with `k`. */
  function Tagged(k: Kind, nodes: seq<DomNode>): (hs: seq<Handler>)
    ensures |hs| == |nodes|
    ensures forall i :: 0 <= i < |nodes| ==> hs[i] == Handler(k, nodes[i])
  {
    if nodes == [] then [] else Tagged(k, nodes[..|nodes| - 1]) + [Handler(k, nodes[|nodes| - 1])]
  }

  /** The `handlers` list built from a batch: the records in order. */
  function Handlers(ms: seq<Record>): seq<Handler>
    decreases |ms|
  {
    if ms == [] then [] else Handlers(ms[..|ms| - 1]) + RecordHandlers(ms[|ms| - 1])
  }

  /** The handlers of two batches one after the other are those of the joined
      batch: records are handled in order and never merged. */
  lemma {:induction false} HandlersAppend(ms: seq<Record>, ns: seq<Record>)
    ensures Handlers(ms + ns) == Handlers(ms) + Handlers(ns)
    decreases |ns|
  {
    if ns == [] {
      assert ms + ns == ms;
    } else {
      var n := |ns| - 1;
      var all := ms + ns;
      assert all[..|all| - 1] == ms + ns[..n];
      assert all[|all| - 1] == ns[n];
      var a, b, c := Handlers(ms), Handlers(ns[..n]), RecordHandlers(ns[n]);
      calc {
        Handlers(all);
        Handlers(ms + ns[..n]) + c;
        { HandlersAppend(ms, ns[..n]); }
        (a + b) + c;
        a + (b + c);
        a + Handlers(ns);
      }
    }
  }

  lemma HandlersOne(m: Record)
    ensures Handlers([m]) == RecordHandlers(m)
  {
    assert [m][..0] == [];
  }

  /** The handlers of one more record are those of the record appended: for a
      `childList` record, its added nodes are pushed, then its removed ones. */
  lemma HandlersSnoc(ms: seq<Record>, i: nat)
    requires i < |ms|
    ensures Handlers(ms[..i + 1]) == Handlers(ms[..i]) + RecordHandlers(ms[i])
    ensures ms[i].childList ==>
      Handlers(ms[..i + 1]) == Handlers(ms[..i]) + Tagged(Add, ms[i].added) + Tagged(Remove, ms[i].removed)
  {
    assert ms[..i + 1][..i] == ms[..i];
  }

  /** Classifying a handler node. A non-element is skipped. A pane is acted on
      itself, with no wrapper. Any other element is a wrapper: the first pane
      at any depth below it (`querySelector('x-tab')`) is acted on with the
      wrapper, and the handler is skipped when there is none. */
  function Classify(h: Handler): Option<Action>
  {
    match h.node
    case NonElement => None
    case Element(id, isPane, kids) =>
      if isPane then Some(Act(h.kind, id, None))
      else
        match FindPane(kids)
        case None => None
        case Some(p) => Some(Act(h.kind, p, Some(id)))
  }

  function Act(k: Kind, p: Pane, w: Option<Node>): Action
  {
    if k == Add then AddPane(p, w) else RemovePane(p)
  }

  /** The three outcomes of classification, each in both directions. */
  lemma ClassifyCases(h: Handler)
    ensures Classify(h).None? <==>
      (h.node.NonElement? || (!h.node.isPane && PanesIn(h.node.children) == []))
    ensures h.node.Element? && h.node.isPane ==>
      Classify(h) == Some(Act(h.kind, h.node.id, None))
    ensures h.node.Element? && !h.node.isPane && PanesIn(h.node.children) != [] ==>
      Classify(h) == Some(Act(h.kind, PanesIn(h.node.children)[0], Some(h.node.id)))
  {
    if h.node.Element? {
      FindPaneIsFirstOfPanesIn(h.node.children);
    }
  }

  /** A wrapper is passed only when the changed node is not itself a pane, and
      then it is that node. */
  lemma ClassifyWrapper(h: Handler)
    requires Classify(h).Some? && Classify(h).value.AddPane?
    ensures h.node.Element?
    ensures Classify(h).value.wrapper.Some? <==> !h.node.isPane
    ensures Classify(h).value.wrapper.Some? ==> Classify(h).value.wrapper.value == h.node.id
  {
  }

  /** One action on the registry; None is `_removeTab` on a pane without a tab,
      where `paneMap.get(pane)` is undefined and reading its `parentNode` throws. */
  function Step(s: State, a: Action): (r: Option<State>)
    requires Valid(s)
    ensures r.Some? ==> Valid(r.value)
    ensures r.None? <==> a.RemovePane? && a.pane !in s.paneMap
  {
    match a
    case AddPane(p, w) =>
      AddTabRegisters(s, p, w);
      Some(AddTab(s, p, w))
    case RemovePane(p) => if p in s.paneMap then Some(RemoveTabAsWritten(s, p)) else None
  }

  /** The handlers in order, from the state `s`: the final state, and whether
      every handler ran. A TypeError in one handler ends the batch with the
      state the earlier handlers left. */
  function Run(s: State, hs: seq<Handler>): (r: (State, bool))
    requires Valid(s)
    ensures Valid(r.0)
    decreases |hs|
  {
    if hs == [] then (s, true)
    else
      match Classify(hs[0])
      case None => Run(s, hs[1..])
      case Some(a) =>
        match Step(s, a)
        case None => (s, false)
        case Some(s') => Run(s', hs[1..])
  }

  /** handleMutations(mutations). */
  function HandleMutations(s: State, ms: seq<Record>): (r: (State, bool))
    requires Valid(s)
    ensures Valid(r.0)
  {
    Run(s, Handlers(ms))
  }

  /** Running two lists of handlers one after the other is running them joined,
      unless the first one stopped on an error. */
  lemma {:induction false} RunAppend(s: State, hs: seq<Handler>, gs: seq<Handler>)
    requires Valid(s)
    ensures var (s1, ok) := Run(s, hs);
      Run(s, hs + gs) == if ok then Run(s1, gs) else (s1, false)
    decreases |hs|
  {
    if hs == [] {
      assert hs + gs == gs;
    } else {
      assert (hs + gs)[0] == hs[0];
      assert (hs + gs)[1..] == hs[1..] + gs;
      match Classify(hs[0])
      case None => RunAppend(s, hs[1..], gs);
      case Some(a) =>
        match Step(s, a)
        case None =>
        case Some(s') => RunAppend(s', hs[1..], gs);
    }
  }

  /** A batch split in two and delivered as two calls of handleMutations has the
      effect of the whole batch at once. */
  lemma HandleMutationsSplit(s: State, ms: seq<Record>, ns: seq<Record>)
    requires Valid(s)
    ensures var (s1, ok) := HandleMutations(s, ms);
      HandleMutations(s, ms + ns) == if ok then HandleMutations(s1, ns) else (s1, false)
  {
    HandlersAppend(ms, ns);
    RunAppend(s, Handlers(ms), Handlers(ns));
  }

  /** Handlers that are all skipped change nothing. */
  lemma {:induction false} RunSkipped(s: State, hs: seq<Handler>)
    requires Valid(s)
    requires forall i :: 0 <= i < |hs| ==> Classify(hs[i]).None?
    ensures Run(s, hs) == (s, true)
    decreases |hs|
  {
    if hs != [] {
      assert forall i :: 0 <= i < |hs[1..]| ==> hs[1..][i] == hs[i + 1];
      RunSkipped(s, hs[1..]);
    }
  }

  /** A batch whose nodes are all non-elements or elements with no pane at any
      depth changes nothing. */
  lemma IrrelevantBatch(s: State, ms: seq<Record>)
    requires Valid(s)
    requires forall i :: 0 <= i < |Handlers(ms)| ==>
      Handlers(ms)[i].node.NonElement? ||
      (!Handlers(ms)[i].node.isPane && PanesIn(Handlers(ms)[i].node.children) == [])
    ensures HandleMutations(s, ms) == (s, true)
  {
    var hs := Handlers(ms);
    forall i | 0 <= i < |hs| ensures Classify(hs[i]).None? {
      ClassifyCases(hs[i]);
    }
    RunSkipped(s, hs);
  }

  /** A batch of one handler. */
  lemma RunOne(s: State, h: Handler)
    requires Valid(s)
    ensures Run(s, [h]) ==
      match Classify(h)
      case None => (s, true)
      case Some(a) => if Step(s, a).Some? then (Step(s, a).value, true) else (s, false)
  {
    assert [h][1..] == [];
  }

  /** A single added node: a pane is added as a pane, a wrapper's first nested
      pane is added with the wrapper recorded. */
  lemma AddOne(s: State, n: DomNode)
    requires Valid(s)
    ensures var r := HandleMutations(s, [Record(true, [n], [])]);
      && r.1
      && (n.Element? && n.isPane ==> r.0 == AddTab(s, n.id, None))
      && (n.Element? && !n.isPane && PanesIn(n.children) != [] ==>
            r.0 == AddTab(s, PanesIn(n.children)[0], Some(n.id)))
  {
    var m := Record(true, [n], []);
    var h := Handler(Add, n);
    HandlersOne(m);
    assert RecordHandlers(m) == [h];
    ClassifyCases(h);
    RunOne(s, h);
  }

  /** A single removed node whose pane is registered unregisters it; one whose
      pane has no tab stops the batch and changes nothing. */
  lemma RemoveOne(s: State, n: DomNode, p: Pane)
    requires Valid(s)
    requires n.Element? && (if n.isPane then p == n.id else PanesIn(n.children) != [] && PanesIn(n.children)[0] == p)
    ensures var r := HandleMutations(s, [Record(true, [], [n])]);
      && (p in s.paneMap ==> r == (RemoveTabAsWritten(s, p), true))
      && (p !in s.paneMap ==> r == (s, false))
  {
    var m := Record(true, [], [n]);
    var h := Handler(Remove, n);
    HandlersOne(m);
    assert RecordHandlers(m) == [h];
    ClassifyCases(h);
    assert Classify(h) == Some(RemovePane(p));
    RunOne(s, h);
  }
}
