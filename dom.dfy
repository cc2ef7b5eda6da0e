/**
  The slice of the DOM that the tab container touches.

  Nodes are identified by reference; here a reference is a `Node` id. A pane is an
  `x-tab` element. The container reads and writes a handful of a pane's attributes,
  collected in `PaneState`. The two element queries the container uses on a subtree,
  `querySelector('x-tab')` and `querySelectorAll('x-tab')`, are `FindPane` and `PanesIn`.
 */
module Dom {

  datatype Option<T> = None | Some(value: T)

  /** Identity of a DOM node (an element reference). */
  type Node = nat

  /** A pane is an `x-tab` element, identified by its node. */
  type Pane = Node

  /** A node as the container sees it in a mutation record or in its own subtree:
      a non-element node (text, comment), or an element that is a pane (`x-tab`)
      or not, with its children in document order. */
  datatype DomNode =
    | NonElement
    | Element(id: Node, isPane: bool, children: seq<DomNode>)

  /** The attributes of one pane that the container reads or writes:
      its inline `style.display`, its `active` and `closable` attributes,
      its `title` attribute ("" when absent) and its `title` property. */
  datatype PaneState = PaneState(
    display: string,
    active: bool,
    closable: bool,
    titleAttr: string,
    title: string)

  /** A pane without any attribute set. */
  const Unmarked := PaneState("", false, false, "", "")

  /** The attributes of pane `p` in the document `panes`. */
  function Lookup(panes: map<Pane, PaneState>, p: Pane): PaneState
  {
    if p in panes then panes[p] else Unmarked
  }

  /** The text a new tab shows: `pane.getAttribute('title') || pane.title`. */
  function TitleOf(ps: PaneState): string
  {
    if ps.titleAttr != "" then ps.titleAttr else ps.title
  }

  /** `querySelectorAll('x-tab')` over the subtrees `nodes`: every pane at any
      depth, in document (pre-)order. */
  function PanesIn(nodes: seq<DomNode>): seq<Pane>
    decreases nodes
  {
    if nodes == [] then []
    else PanesUnder(nodes[0]) + PanesIn(nodes[1..])
  }

  /** The panes of the subtree rooted at `n`, the root included. */
  function PanesUnder(n: DomNode): seq<Pane>
    decreases n
  {
    match n
    case NonElement => []
    case Element(id, isPane, kids) => (if isPane then [id] else []) + PanesIn(kids)
  }

  /** `querySelector('x-tab')` over the subtrees `nodes`: the first pane in
      document order, at any depth, or None. */
  function FindPane(nodes: seq<DomNode>): (r: Option<Pane>)
    decreases nodes
  {
    if nodes == [] then None
    else
      match nodes[0]
      case NonElement => FindPane(nodes[1..])
      case Element(id, isPane, kids) =>
        if isPane then Some(id)
        else
          match FindPane(kids)
          case Some(p) => Some(p)
          case None => FindPane(nodes[1..])
  }

  lemma {:induction false} PanesInAppend(a: seq<DomNode>, b: seq<DomNode>)
    ensures PanesIn(a + b) == PanesIn(a) + PanesIn(b)
    decreases a
  {
    if a == [] {
      assert a + b == b;
    } else {
      assert (a + b)[0] == a[0];
      assert (a + b)[1..] == a[1..] + b;
      PanesInAppend(a[1..], b);
    }
  }

  /** querySelector returns the first element of what querySelectorAll returns,
      and nothing exactly when there is no pane at any depth. */
  lemma {:induction false} FindPaneIsFirstOfPanesIn(nodes: seq<DomNode>)
    ensures FindPane(nodes) == None <==> PanesIn(nodes) == []
    ensures FindPane(nodes).Some? ==> FindPane(nodes).value == PanesIn(nodes)[0]
    decreases nodes
  {
    if nodes != [] {
      FindPaneIsFirstOfPanesIn(nodes[1..]);
      match nodes[0]
      case NonElement =>
      case Element(id, isPane, kids) =>
        if !isPane {
          FindPaneIsFirstOfPanesIn(kids);
        }
    }
  }

  /** A pane nested anywhere below `nodes` is found by querySelectorAll. */
  lemma {:induction false} NestedPaneIsListed(nodes: seq<DomNode>, i: nat, p: Pane)
    requires i < |nodes| && p in PanesUnder(nodes[i])
    ensures p in PanesIn(nodes)
    decreases nodes
  {
    if i == 0 {
    } else {
      NestedPaneIsListed(nodes[1..], i - 1, p);
    }
  }

  /** No entry appears twice (a DOM node occurs once in a tree, a tab once in the strip). */
  predicate Distinct<T(==)>(xs: seq<T>)
  {
    forall i, j :: 0 <= i < j < |xs| ==> xs[i] != xs[j]
  }

  /** Dropping the last entry keeps the rest distinct, and the last entry is not among them. */
  lemma DistinctInit<T>(xs: seq<T>)
    requires Distinct(xs) && xs != []
    ensures Distinct(xs[..|xs| - 1]) && xs[|xs| - 1] !in xs[..|xs| - 1]
  {
    var n := |xs| - 1;
    forall i, j | 0 <= i < j < n ensures xs[..n][i] != xs[..n][j] {
      assert xs[..n][i] == xs[i] && xs[..n][j] == xs[j];
    }
    forall i | 0 <= i < n ensures xs[..n][i] != xs[n] {
      assert xs[..n][i] == xs[i];
    }
  }
}
