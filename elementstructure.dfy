/**
 * The element structure: an immutable record of the elements keyed by id
 * and the index-ordered list of their ids. No tree is stored; parent,
 * children and depth come from the scene-tree scan of the index-ordered
 * element list. Positions that the structure hands out are 1-based.
 *
 * Many of the source's mutators read and write a field `layers` that the
 * record does not declare; the record has one map, `elements`, and the
 * model uses it for both names.
 */
module ElementStructure {
  import opened Common
  import opened ElementModel
  import opened SceneTree
  import opened SceneTreeFacts

  datatype Structure = Structure(elements: map<int, Element>, index: seq<int>)

  /**
   * A well-formed structure: each element is keyed by its own id, the index
   * names known elements without repeating one, and no GROUPEND is also
   * flagged as a parent.
   */
  predicate Valid(s: Structure) {
    && (forall k :: k in s.elements ==> s.elements[k].id == k)
    && (forall i :: 0 <= i < |s.index| ==> s.index[i] in s.elements)
    && NoDup(s.index)
    && (forall k :: k in s.elements && s.elements[k].kind == GroupEnd ==> !s.elements[k].isParent)
  }

  /** The element with the given id, or None (null in the source). */
  function ByID(s: Structure, id: int): (r: Option<Element>)
    ensures r.Some? <==> id in s.elements
    ensures r.Some? ==> r.value == s.elements[id]
  {
    if id in s.elements then Some(s.elements[id]) else None
  }

  /** The elements in index order. */
  function All(s: Structure): (r: seq<Element>)
    requires Valid(s)
    ensures |r| == |s.index|
    ensures forall i :: 0 <= i < |r| ==> r[i] == s.elements[s.index[i]] && r[i].id == s.index[i]
  {
    seq(|s.index|, i requires 0 <= i < |s.index| => s.elements[s.index[i]])
  }

  /** The scene-tree node map of the structure. */
  function Nodes(s: Structure): map<int, SceneTreeNode>
    requires Valid(s)
  {
    Build(All(s)).nodes
  }

  /** The root nodes of the structure, in the order the scan made them. */
  function Roots(s: Structure): seq<SceneTreeNode>
    requires Valid(s)
  {
    Build(All(s)).roots
  }

  /** The index-ordered element list of a valid structure satisfies what the scan lemmas ask of their input. */
  lemma AllWellFormed(s: Structure)
    requires Valid(s)
    ensures UniqueIds(All(s)) && PlainEnds(All(s))
  {
    var es := All(s);
    forall i, j | 0 <= i < j < |es| ensures es[i].id != es[j].id {
      assert s.index[i] != s.index[j];
    }
    forall i | 0 <= i < |es| && es[i].kind == GroupEnd ensures !es[i].isParent {
      assert es[i] == s.elements[s.index[i]];
    }
  }

  /** The node map's parent links are sound: every parent is in the map, one level up. */
  lemma NodesConsistent(s: Structure)
    requires Valid(s)
    ensures Consistent(Nodes(s))
  {
    AllWellFormed(s);
    BuildConsistent(All(s));
  }

  /** Every node's children are the map's own entries, linked to it. */
  lemma NodesStored(s: Structure)
    requires Valid(s)
    ensures ChildrenStored(Nodes(s))
    ensures forall i :: 0 <= i < |Roots(s)| ==> Stored(Nodes(s), Roots(s)[i])
  {
    AllWellFormed(s);
    BuildStored(All(s));
  }

  /** Every node belongs to an element of the index. */
  lemma NodesIndexed(s: Structure)
    requires Valid(s)
    ensures forall k :: k in Nodes(s) ==> k in s.index && k in s.elements
  {
    var es := All(s);
    LevelKeysFrom(es, None, |es| - 1, 0, map[], [], []);
    forall k | k in Nodes(s) ensures k in s.index && k in s.elements {
      assert IdAtOrBelow(es, k, |es| - 1);
      var p :| 0 <= p <= |es| - 1 && es[p].id == k;
      assert s.index[p] == k;
    }
  }

  /** The roots have no parent and depth 0. */
  lemma RootsTop(s: Structure)
    requires Valid(s)
    ensures forall i :: 0 <= i < |Roots(s)| ==> Roots(s)[i].parent == None && Roots(s)[i].depth == 0
  {
    BuildRoots(All(s));
  }

  /** The elements that are not GROUPEND markers, in index order. */
  function AllVisible(s: Structure): (r: seq<Element>)
    requires Valid(s)
    ensures forall e :: e in r <==> e in All(s) && e.kind != GroupEnd
  {
    Filter(All(s), (e: Element) => e.kind != GroupEnd)
  }

  /**
   * The number of elements that are not GROUPEND markers: at most the
   * length of the index, and all of it exactly when the index holds no
   * marker.
   */
  function Count(s: Structure): (n: nat)
    requires Valid(s)
    ensures n <= |s.index|
    ensures n == |s.index| <==> forall i :: 0 <= i < |s.index| ==> s.elements[s.index[i]].kind != GroupEnd
  {
    FilterKeepsAll(All(s), (e: Element) => e.kind != GroupEnd);
    |AllVisible(s)|
  }

  /** The selected elements, in index order. */
  function Selected(s: Structure): (r: seq<Element>)
    requires Valid(s)
    ensures forall e :: e in r <==> e in All(s) && e.selected
  {
    Filter(All(s), (e: Element) => e.selected)
  }

  /**
   * Immutable's List.get: a negative position counts from the end; a
   * position outside the list gives None.
   */
  function ListGet<T>(xs: seq<T>, i: int): (r: Option<T>)
    ensures r.Some? <==> -|xs| <= i < |xs|
    ensures 0 <= i < |xs| ==> r == Some(xs[i])
    ensures -|xs| <= i < 0 ==> r == Some(xs[|xs| + i])
  {
    if 0 <= i < |xs| then Some(xs[i])
    else if -|xs| <= i < 0 then Some(xs[|xs| + i])
    else None
  }

  /**
   * The element at the 1-based position, or None. Position 0 and other
   * non-positive positions reach back from the end of the index, as the
   * underlying List.get does.
   */
  function ByIndex(s: Structure, position: int): (r: Option<Element>)
    ensures 1 <= position <= |s.index| ==> r == ByID(s, s.index[position - 1])
    ensures -|s.index| < position <= 0 ==> r == ByID(s, s.index[|s.index| + position - 1])
    ensures position > |s.index| || position <= -|s.index| ==> r.None?
  {
    match ListGet(s.index, position - 1)
    case None => None
    case Some(id) => ByID(s, id)
  }

  /** The position (1-based) the reverse index records for an id: its last position in the index. */
  function LastPosition(index: seq<int>, id: int): (r: Option<int>)
    ensures r.Some? <==> id in index
    ensures r.Some? ==> 1 <= r.value <= |index| && index[r.value - 1] == id
    ensures r.Some? ==> forall j :: r.value <= j < |index| ==> index[j] != id
  {
    if |index| == 0 then None
    else if index[|index| - 1] == id then Some(|index|)
    else LastPosition(index[..|index| - 1], id)
  }

  /** The 1-based position of the element's id in the index, or None. */
  function IndexOf(s: Structure, e: Element): (r: Option<int>)
    ensures r.Some? <==> e.id in s.index
    ensures r.Some? ==> 1 <= r.value <= |s.index| && s.index[r.value - 1] == e.id
  {
    LastPosition(s.index, e.id)
  }

  /** The scan's node for an element, when the scan reached it. */
  function NodeOf(s: Structure, e: Element): Option<SceneTreeNode>
    requires Valid(s)
  {
    if e.id in Nodes(s) then Some(Nodes(s)[e.id]) else None
  }

  /**
   * The parent element, or None for a root or an element the scan did not
   * reach. A parent sits one level above its child.
   */
  function Parent(s: Structure, e: Element): (r: Option<Element>)
    requires Valid(s)
    ensures r.Some? <==> e.id in Nodes(s) && Nodes(s)[e.id].parent.Some?
    ensures r.Some? ==>
      && Nodes(s)[e.id].parent == Some(r.value.id)
      && r.value.id in s.elements && s.elements[r.value.id] == r.value
      && r.value.id in Nodes(s) && Nodes(s)[r.value.id].depth >= 0
      && Nodes(s)[r.value.id].depth + 1 == Nodes(s)[e.id].depth
    ensures r.None? && e.id in Nodes(s) ==> Nodes(s)[e.id].depth == 0
  {
    NodesConsistent(s);
    NodesIndexed(s);
    var nodes := Nodes(s);
    if e.id in nodes then
      assert NodeOk(nodes, map[], e.id);
      match nodes[e.id].parent
      case None => None
      case Some(q) =>
        assert NodeOk(nodes, map[], q);
        ByID(s, q)
    else None
  }

  /** The depth of the element in the tree, or None when the scan did not reach it. */
  function Depth(s: Structure, e: Element): (r: Option<int>)
    requires Valid(s)
    ensures r.Some? <==> e.id in Nodes(s)
    ensures r.Some? ==> r.value == Nodes(s)[e.id].depth && r.value >= 0
  {
    NodesConsistent(s);
    if e.id in Nodes(s) then
      assert NodeOk(Nodes(s), map[], e.id);
      Some(Nodes(s)[e.id].depth)
    else None
  }

  /** The number of children a node records; a node without a child list has none. */
  function ChildCount(n: SceneTreeNode): nat {
    match n.children
    case NoChildren => 0
    case ChildNodes(cs) => |cs|
  }

  /** The ids of a node's first k children, in order. */
  function ChildIds(n: SceneTreeNode, k: nat): (r: seq<int>)
    requires k <= ChildCount(n)
    ensures |r| == k
    ensures forall i :: 0 <= i < k ==> r[i] == n.children.nodes[i].id
  {
    if k == 0 then [] else ChildIds(n, k - 1) + [n.children.nodes[k - 1].id]
  }

  /** The elements with the given ids, in order. */
  function Lookup(s: Structure, ids: seq<int>): (r: seq<Element>)
    requires forall i :: 0 <= i < |ids| ==> ids[i] in s.elements
    ensures |r| == |ids|
    ensures forall i :: 0 <= i < |ids| ==> r[i] == s.elements[ids[i]]
  {
    seq(|ids|, i requires 0 <= i < |ids| => s.elements[ids[i]])
  }

  /** Looking up a concatenation looks up each part. */
  lemma LookupConcat(s: Structure, a: seq<int>, b: seq<int>)
    requires forall i :: 0 <= i < |a| ==> a[i] in s.elements
    requires forall i :: 0 <= i < |b| ==> b[i] in s.elements
    ensures forall i :: 0 <= i < |a + b| ==> (a + b)[i] in s.elements
    ensures Lookup(s, a + b) == Lookup(s, a) + Lookup(s, b)
  {
    assert forall i :: 0 <= i < |a + b| ==> (a + b)[i] in s.elements by {
      forall i | 0 <= i < |a + b| ensures (a + b)[i] in s.elements {
        if i < |a| { assert (a + b)[i] == a[i]; } else { assert (a + b)[i] == b[i - |a|]; }
      }
    }
  }

  /** A node of the map is keyed by its own id, and its children are the map's entries and elements of the structure. */
  lemma ChildrenKnown(s: Structure, k: int)
    requires Valid(s) && k in Nodes(s)
    ensures Nodes(s)[k].id == k
    ensures var n := Nodes(s)[k];
      forall i :: 0 <= i < ChildCount(n) ==>
        n.children.nodes[i].id in Nodes(s) && Nodes(s)[n.children.nodes[i].id] == n.children.nodes[i] &&
        n.children.nodes[i].id in s.elements
  {
    NodesStored(s);
    NodesIndexed(s);
    var n := Nodes(s)[k];
    forall i | 0 <= i < ChildCount(n)
      ensures n.children.nodes[i].id in Nodes(s) && Nodes(s)[n.children.nodes[i].id] == n.children.nodes[i]
    {
      assert Stored(Nodes(s), n.children.nodes[i]);
    }
  }

  /**
   * The children of an element, in the order its node records them (the
   * scan's order: from the bottom of its level up, the group's GROUPEND
   * last); empty when the element has no child list.
   */
  function Children(s: Structure, e: Element): (r: seq<Element>)
    requires Valid(s)
    ensures e.id in Nodes(s) ==> |r| == ChildCount(Nodes(s)[e.id])
    ensures e.id in Nodes(s) ==> forall i :: 0 <= i < |r| ==> r[i].id == Nodes(s)[e.id].children.nodes[i].id
    ensures e.id !in Nodes(s) ==> r == []
    ensures forall i :: 0 <= i < |r| ==> r[i].id in s.elements && s.elements[r[i].id] == r[i]
  {
    if e.id in Nodes(s) then
      var n := Nodes(s)[e.id];
      ChildrenKnown(s, e.id);
      Lookup(s, ChildIds(n, ChildCount(n)))
    else []
  }

  /** The roots are stored nodes of elements of the structure, with no parent. */
  lemma RootsKnown(s: Structure)
    requires Valid(s)
    ensures forall i :: 0 <= i < |Roots(s)| ==>
      Roots(s)[i].id in s.elements && Roots(s)[i].id in Nodes(s) && Nodes(s)[Roots(s)[i].id].parent == None
  {
    NodesStored(s);
    NodesIndexed(s);
    RootsTop(s);
    forall i | 0 <= i < |Roots(s)| ensures Roots(s)[i].id in Nodes(s) && Nodes(s)[Roots(s)[i].id] == Roots(s)[i] {
      assert Stored(Nodes(s), Roots(s)[i]);
    }
  }

  /** The ids of the roots, in order. */
  function RootIds(s: Structure): (r: seq<int>)
    requires Valid(s)
    ensures |r| == |Roots(s)|
    ensures forall i :: 0 <= i < |r| ==> r[i] == Roots(s)[i].id && r[i] in s.elements && r[i] in Nodes(s) && Nodes(s)[r[i]].parent == None
  {
    RootsKnown(s);
    seq(|Roots(s)|, i requires 0 <= i < |Roots(s)| => Roots(s)[i].id)
  }

  /** The root elements that are not GROUPEND markers, in the scan's order. */
  function Top(s: Structure): (r: seq<Element>)
    requires Valid(s)
    ensures forall e :: e in r <==> e in Lookup(s, RootIds(s)) && e.kind != GroupEnd
  {
    Filter(Lookup(s, RootIds(s)), (e: Element) => e.kind != GroupEnd)
  }

  /** The element's siblings, itself included: its parent's children, or the top elements for a root. */
  function Siblings(s: Structure, e: Element): (r: seq<Element>)
    requires Valid(s)
    ensures Parent(s, e).Some? ==> r == Children(s, Parent(s, e).value)
    ensures Parent(s, e).None? ==> r == Top(s)
  {
    match Parent(s, e)
    case Some(p) => Children(s, p)
    case None => Top(s)
  }

  /** The ancestors of an element, root first, not including the element. */
  function StrictAncestors(s: Structure, e: Element): (r: seq<Element>)
    requires Valid(s)
    ensures Depth(s, e).Some? ==> |r| == Depth(s, e).value
    ensures Depth(s, e).None? ==> r == []
    decreases if e.id in Nodes(s) then Nodes(s)[e.id].depth else 0
  {
    match Parent(s, e)
    case None => []
    case Some(p) => StrictAncestors(s, p) + [p]
  }

  /** The ancestors of an element, root first, ending with the element itself. */
  function Ancestors(s: Structure, e: Element): (r: seq<Element>)
    requires Valid(s)
    ensures |r| >= 1 && r[|r| - 1] == e && r[..|r| - 1] == StrictAncestors(s, e)
  {
    StrictAncestors(s, e) + [e]
  }

  /**
   * The strict ancestors form the parent chain from a root down: the i-th
   * one sits at depth i, the first has no parent, each later one is the
   * parent of the next, and the last is the element's own parent.
   */
  lemma {:induction false} AncestorChain(s: Structure, e: Element)
    requires Valid(s)
    ensures var r := StrictAncestors(s, e);
      && (forall i :: 0 <= i < |r| ==> Depth(s, r[i]) == Some(i) && r[i].id in s.elements && s.elements[r[i].id] == r[i])
      && (|r| > 0 ==> Parent(s, r[0]) == None && Parent(s, e) == Some(r[|r| - 1]))
      && (forall i :: 0 < i < |r| ==> Parent(s, r[i]) == Some(r[i - 1]))
    decreases if e.id in Nodes(s) then Nodes(s)[e.id].depth else 0
  {
    match Parent(s, e)
    case None =>
    case Some(p) =>
      AncestorChain(s, p);
      var q := StrictAncestors(s, p);
      assert StrictAncestors(s, e) == q + [p];
      assert Depth(s, p) == Some(|q|);
      ChainDepths(s, q, p);
  }

  /** A chain whose i-th member is stored and at depth i stays so with one more member at the next depth. */
  lemma ChainDepths(s: Structure, q: seq<Element>, p: Element)
    requires Valid(s)
    requires forall i :: 0 <= i < |q| ==> Depth(s, q[i]) == Some(i) && q[i].id in s.elements && s.elements[q[i].id] == q[i]
    requires Depth(s, p) == Some(|q|) && p.id in s.elements && s.elements[p.id] == p
    ensures var r := q + [p];
      forall i :: 0 <= i < |r| ==> Depth(s, r[i]) == Some(i) && r[i].id in s.elements && s.elements[r[i].id] == r[i]
  {
  }

  /** An element whose parent is p has the ancestors of p followed by itself; a root has only itself. */
  lemma AncestorsStep(s: Structure, e: Element)
    requires Valid(s)
    ensures Parent(s, e).Some? ==> Ancestors(s, e) == Ancestors(s, Parent(s, e).value) + [e]
    ensures Parent(s, e).None? ==> Ancestors(s, e) == [e]
  {
  }

  /**
   * Some element on the ancestor chain, the element itself included, is
   * selected: a selected element has one, and a root has one only when it
   * is selected itself.
   */
  function HasSelectedAncestor(s: Structure, e: Element): (r: bool)
    requires Valid(s)
    ensures e.selected ==> r
    ensures Parent(s, e).None? ==> (r <==> e.selected)
    decreases if e.id in Nodes(s) then Nodes(s)[e.id].depth else 0, 1
  {
    e.selected || HasStrictSelectedAncestor(s, e)
  }

  /**
   * Some strict ancestor of the element is selected: the parent has a
   * selected ancestor. A root has none; a selected parent is one.
   */
  function HasStrictSelectedAncestor(s: Structure, e: Element): (r: bool)
    requires Valid(s)
    ensures Parent(s, e).None? ==> !r
    ensures Parent(s, e).Some? && Parent(s, e).value.selected ==> r
    decreases if e.id in Nodes(s) then Nodes(s)[e.id].depth else 0, 0
  {
    match Parent(s, e)
    case Some(p) => HasSelectedAncestor(s, p)
    case None => false
  }

  /** The recursive selected-ancestor test agrees with a search of the ancestor list. */
  lemma {:induction false} SelectedAncestorSearch(s: Structure, e: Element)
    requires Valid(s)
    ensures HasStrictSelectedAncestor(s, e) <==> exists a :: a in StrictAncestors(s, e) && a.selected
    ensures HasSelectedAncestor(s, e) <==> exists a :: a in Ancestors(s, e) && a.selected
    decreases if e.id in Nodes(s) then Nodes(s)[e.id].depth else 0
  {
    match Parent(s, e)
    case None =>
    case Some(p) =>
      SelectedAncestorSearch(s, p);
      assert StrictAncestors(s, e) == Ancestors(s, p);
  }

  /**
   * Some element on the ancestor chain, the element included, is locked:
   * a locked element has one, and a root has one only when it is locked.
   */
  function HasLockedAncestor(s: Structure, e: Element): (r: bool)
    requires Valid(s)
    ensures e.locked ==> r
    ensures Parent(s, e).None? ==> (r <==> e.locked)
  {
    assert Ancestors(s, e)[|Ancestors(s, e)| - 1] == e;
    exists a :: a in Ancestors(s, e) && a.locked
  }

  /**
   * Some element on the ancestor chain, the element included, is hidden:
   * a hidden element has one, and a root has one only when it is hidden.
   */
  function HasInvisibleAncestor(s: Structure, e: Element): (r: bool)
    requires Valid(s)
    ensures !e.visible ==> r
    ensures Parent(s, e).None? ==> (r <==> !e.visible)
  {
    assert Ancestors(s, e)[|Ancestors(s, e)| - 1] == e;
    exists a :: a in Ancestors(s, e) && !a.visible
  }

  /**
   * Some strict ancestor is collapsed, so the layers panel hides the
   * element. A root is never hidden this way; a collapsed parent hides it.
   */
  function HasCollapsedAncestor(s: Structure, e: Element): (r: bool)
    requires Valid(s)
    ensures Parent(s, e).None? ==> !r
    ensures Parent(s, e).Some? && !Parent(s, e).value.expanded ==> r
  {
    assert Parent(s, e).Some? ==> StrictAncestors(s, e)[|StrictAncestors(s, e)| - 1] == Parent(s, e).value;
    exists a :: a in StrictAncestors(s, e) && !a.expanded
  }

  /** A locked element on a chain extended by one: the new last element, or one already there. */
  lemma LockedSnoc(up: seq<Element>, e: Element)
    ensures (exists a :: a in up + [e] && a.locked) <==> e.locked || (exists a :: a in up && a.locked)
  {
    if exists a :: a in up + [e] && a.locked {
      var a :| a in up + [e] && a.locked;
      assert a == e || a in up;
    }
    if exists a :: a in up && a.locked {
      var a :| a in up && a.locked;
      assert a in up + [e];
    }
    assert e in up + [e];
  }

  /** A hidden element on a chain extended by one: the new last element, or one already there. */
  lemma HiddenSnoc(up: seq<Element>, e: Element)
    ensures (exists a :: a in up + [e] && !a.visible) <==> !e.visible || (exists a :: a in up && !a.visible)
  {
    if exists a :: a in up + [e] && !a.visible {
      var a :| a in up + [e] && !a.visible;
      assert a == e || a in up;
    }
    if exists a :: a in up && !a.visible {
      var a :| a in up && !a.visible;
      assert a in up + [e];
    }
    assert e in up + [e];
  }

  /** The locked test follows the parent link. */
  lemma LockedAncestorStep(s: Structure, e: Element)
    requires Valid(s)
    ensures HasLockedAncestor(s, e) <==> e.locked || (Parent(s, e).Some? && HasLockedAncestor(s, Parent(s, e).value))
  {
    match Parent(s, e)
    case None =>
      assert Ancestors(s, e) == [] + [e];
      LockedSnoc([], e);
    case Some(p) =>
      assert Ancestors(s, e) == Ancestors(s, p) + [e];
      LockedSnoc(Ancestors(s, p), e);
  }

  /** The hidden test follows the parent link. */
  lemma InvisibleAncestorStep(s: Structure, e: Element)
    requires Valid(s)
    ensures HasInvisibleAncestor(s, e) <==> !e.visible || (Parent(s, e).Some? && HasInvisibleAncestor(s, Parent(s, e).value))
  {
    match Parent(s, e)
    case None =>
      assert Ancestors(s, e) == [] + [e];
      HiddenSnoc([], e);
    case Some(p) =>
      assert Ancestors(s, e) == Ancestors(s, p) + [e];
      HiddenSnoc(Ancestors(s, p), e);
  }

  /** The collapsed test follows the parent link. */
  lemma CollapsedAncestorStep(s: Structure, e: Element)
    requires Valid(s)
    ensures HasCollapsedAncestor(s, e) <==>
      (Parent(s, e).Some? && (!Parent(s, e).value.expanded || HasCollapsedAncestor(s, Parent(s, e).value)))
  {
    if Parent(s, e).Some? {
      var p := Parent(s, e).value;
      assert StrictAncestors(s, e) == StrictAncestors(s, p) + [p];
    }
  }

  /** The ancestor-chain tests follow the parent link: the element's own flag, or the parent's answer. */
  lemma AncestorTestsStep(s: Structure, e: Element)
    requires Valid(s)
    ensures HasLockedAncestor(s, e) <==> e.locked || (Parent(s, e).Some? && HasLockedAncestor(s, Parent(s, e).value))
    ensures HasInvisibleAncestor(s, e) <==> !e.visible || (Parent(s, e).Some? && HasInvisibleAncestor(s, Parent(s, e).value))
    ensures HasCollapsedAncestor(s, e) <==>
      (Parent(s, e).Some? && (!Parent(s, e).value.expanded || HasCollapsedAncestor(s, Parent(s, e).value)))
  {
    LockedAncestorStep(s, e);
    InvisibleAncestorStep(s, e);
    CollapsedAncestorStep(s, e);
  }

  /**
   * The selected elements that have no selected strict ancestor, in index
   * order: the selection with every selected descendant of a selected
   * element removed.
   */
  function SelectedNormalized(s: Structure): (r: seq<Element>)
    requires Valid(s)
    ensures |r| <= |Selected(s)|
  {
    var selected := Selected(s);
    Filter(selected, (e: Element) => !(exists a :: a in StrictAncestors(s, e) && a in selected))
  }

  /** The ancestors of an element of the structure are elements of the index. */
  lemma AncestorsInAll(s: Structure, e: Element)
    requires Valid(s)
    ensures forall a :: a in StrictAncestors(s, e) ==> a in All(s)
  {
    AncestorChain(s, e);
    NodesIndexed(s);
    var r := StrictAncestors(s, e);
    forall a | a in r ensures a in All(s) {
      var i :| 0 <= i < |r| && r[i] == a;
      assert Depth(s, a).Some?;
      var j :| 0 <= j < |s.index| && s.index[j] == a.id;
      assert All(s)[j] == a;
    }
  }

  /** An element is kept by the normalised selection exactly when it is selected and no strict ancestor is. */
  lemma SelectedNormalizedSpec(s: Structure, e: Element)
    requires Valid(s)
    ensures e in SelectedNormalized(s) <==> e in Selected(s) && !HasStrictSelectedAncestor(s, e)
  {
    SelectedAncestorSearch(s, e);
    AncestorsInAll(s, e);
  }

  /** The ids of a node's subtree: its children's subtrees, the last child's first, then its own id. */
  function SubtreeIds(n: SceneTreeNode): (r: seq<int>)
    ensures |r| >= 1 && r[|r| - 1] == n.id
    decreases n, 1
  {
    ForestIds(n, ChildCount(n)) + [n.id]
  }

  /** The subtrees of a node's first k children, from child k - 1 down to child 0. */
  function ForestIds(n: SceneTreeNode, k: nat): seq<int>
    requires k <= ChildCount(n)
    decreases n, 0, k
  {
    if k == 0 then [] else SubtreeIds(n.children.nodes[k - 1]) + ForestIds(n, k - 1)
  }

  /** Every id of a stored node's subtree is in the map, at least as deep as the node. */
  lemma {:induction false} SubtreeInMap(nodes: map<int, SceneTreeNode>, n: SceneTreeNode)
    requires ChildrenStored(nodes) && Stored(nodes, n)
    ensures forall i :: 0 <= i < |SubtreeIds(n)| ==>
      SubtreeIds(n)[i] in nodes && nodes[SubtreeIds(n)[i]].depth >= n.depth
    decreases n, 1
  {
    ForestInMap(nodes, n, ChildCount(n));
  }

  /** Every id of the subtrees of a stored node's first k children is in the map, deeper than the node. */
  lemma {:induction false} ForestInMap(nodes: map<int, SceneTreeNode>, n: SceneTreeNode, k: nat)
    requires ChildrenStored(nodes) && Stored(nodes, n) && k <= ChildCount(n)
    ensures forall i :: 0 <= i < |ForestIds(n, k)| ==>
      ForestIds(n, k)[i] in nodes && nodes[ForestIds(n, k)[i]].depth > n.depth
    decreases n, 0, k
  {
    if k > 0 {
      var c := n.children.nodes[k - 1];
      assert nodes[n.id] == n;
      assert Stored(nodes, c) && Linked(n);
      assert c.depth == n.depth + 1;
      SubtreeInMap(nodes, c);
      ForestInMap(nodes, n, k - 1);
    }
  }

  /** The ids of the strict descendants of a stored node, in the source's order. */
  lemma DescendantIdsKnown(s: Structure, k: int)
    requires Valid(s) && k in Nodes(s)
    ensures var n := Nodes(s)[k];
      forall i :: 0 <= i < |ForestIds(n, ChildCount(n))| ==>
        ForestIds(n, ChildCount(n))[i] in s.elements && ForestIds(n, ChildCount(n))[i] in Nodes(s) &&
        Nodes(s)[ForestIds(n, ChildCount(n))[i]].depth > n.depth
  {
    NodesStored(s);
    NodesIndexed(s);
    ChildrenKnown(s, k);
    var n := Nodes(s)[k];
    var ids := ForestIds(n, ChildCount(n));
    assert Stored(Nodes(s), n);
    ForestInMap(Nodes(s), n, ChildCount(n));
    forall i | 0 <= i < |ids| ensures ids[i] in s.elements {
      var q := ids[i];
      assert q in Nodes(s);
      assert q in s.index && q in s.elements;
    }
  }

  /**
   * The strict descendants of an element: the descendants of its children,
   * the last child's first. All of them lie deeper in the tree.
   */
  function StrictDescendants(s: Structure, e: Element): (r: seq<Element>)
    requires Valid(s)
    ensures e.id !in Nodes(s) ==> r == []
    ensures forall i :: 0 <= i < |r| ==> r[i].id in s.elements && s.elements[r[i].id] == r[i]
  {
    if e.id in Nodes(s) then
      var n := Nodes(s)[e.id];
      DescendantIdsKnown(s, e.id);
      var ids := ForestIds(n, ChildCount(n));
      var r := Lookup(s, ids);
      assert forall i :: 0 <= i < |r| ==> r[i].id == ids[i] && ids[i] in Nodes(s);
      r
    else []
  }

  /** The strict descendants of an element are nodes of the tree, each deeper than the element. */
  lemma StrictDescendantsDeeper(s: Structure, e: Element)
    requires Valid(s)
    ensures var r := StrictDescendants(s, e);
      forall i :: 0 <= i < |r| ==> r[i].id in Nodes(s) && Nodes(s)[r[i].id].depth > Nodes(s)[e.id].depth
  {
    if e.id in Nodes(s) {
      var n := Nodes(s)[e.id];
      DescendantIdsKnown(s, e.id);
      var ids := ForestIds(n, ChildCount(n));
      var r := Lookup(s, ids);
      assert StrictDescendants(s, e) == r;
      assert forall i :: 0 <= i < |r| ==> r[i].id == ids[i] && ids[i] in Nodes(s);
    }
  }

  /** The descendants of an element: its strict descendants, then the element itself. */
  function Descendants(s: Structure, e: Element): (r: seq<Element>)
    requires Valid(s)
    ensures |r| >= 1 && r[|r| - 1] == e && r[..|r| - 1] == StrictDescendants(s, e)
  {
    StrictDescendants(s, e) + [e]
  }

  /**
   * The descendants of each element of a list, concatenated in list order.
   * Each element of the list contributes itself and its strict descendants,
   * so there are at least as many, and none for an empty list.
   */
  function DescendantsOfEach(s: Structure, cs: seq<Element>): (r: seq<Element>)
    requires Valid(s)
    ensures cs == [] <==> r == []
  {
    if cs == [] then [] else Descendants(s, cs[0]) + DescendantsOfEach(s, cs[1..])
  }

  /** An element among the descendants of a list descends from one of its members. */
  lemma DescendantsOfEachFrom(s: Structure, cs: seq<Element>, x: Element) returns (i: nat)
    requires Valid(s) && x in DescendantsOfEach(s, cs)
    ensures i < |cs| && x in Descendants(s, cs[i])
  {
    i := 0;
    assert cs[0..] == cs;
    while x !in Descendants(s, cs[i])
      invariant i < |cs| && x in DescendantsOfEach(s, cs[i..])
      decreases |cs| - i
    {
      DescendantsOfEachNext(s, cs, i, x);
      i := i + 1;
    }
  }

  /** An element of the descendants from position i that does not descend from the i-th member is among those from i + 1. */
  lemma DescendantsOfEachNext(s: Structure, cs: seq<Element>, i: nat, x: Element)
    requires Valid(s) && i < |cs| && x in DescendantsOfEach(s, cs[i..]) && x !in Descendants(s, cs[i])
    ensures i + 1 < |cs| && x in DescendantsOfEach(s, cs[i + 1..])
  {
    DescendantsOfEachUncons(s, cs, i);
    InConcat(x, Descendants(s, cs[i]), DescendantsOfEach(s, cs[i + 1..]));
  }

  /** The descendants of the list from position i: those of the i-th member, then those of the rest. */
  lemma DescendantsOfEachUncons(s: Structure, cs: seq<Element>, i: nat)
    requires Valid(s) && i < |cs|
    ensures DescendantsOfEach(s, cs[i..]) == Descendants(s, cs[i]) + DescendantsOfEach(s, cs[i + 1..])
  {
    assert cs[i..][0] == cs[i] && cs[i..][1..] == cs[i + 1..];
  }

  /** The descendants of a member of a list are among the descendants of the list. */
  lemma {:induction false} DescendantsOfEachHas(s: Structure, cs: seq<Element>, x: Element, i: nat)
    requires Valid(s) && i < |cs| && x in Descendants(s, cs[i])
    ensures x in DescendantsOfEach(s, cs)
  {
    var rest := cs[1..];
    var here, later := Descendants(s, cs[0]), DescendantsOfEach(s, rest);
    assert DescendantsOfEach(s, cs) == here + later;
    if i > 0 {
      assert rest[i - 1] == cs[i];
      DescendantsOfEachHas(s, rest, x, i - 1);
      assert x in later;
    }
  }

  /** An element is among the descendants of a list exactly when it descends from one of its members. */
  lemma DescendantsOfEachMember(s: Structure, cs: seq<Element>, x: Element)
    requires Valid(s)
    ensures x in DescendantsOfEach(s, cs) <==> exists i :: 0 <= i < |cs| && x in Descendants(s, cs[i])
  {
    if x in DescendantsOfEach(s, cs) {
      var i := DescendantsOfEachFrom(s, cs, x);
    }
    if exists i :: 0 <= i < |cs| && x in Descendants(s, cs[i]) {
      var i :| 0 <= i < |cs| && x in Descendants(s, cs[i]);
      DescendantsOfEachHas(s, cs, x, i);
    }
  }

  /** The descendants of a list that starts with c: those of c, then those of the rest. */
  lemma DescendantsOfEachCons(s: Structure, c: Element, rest: seq<Element>)
    requires Valid(s)
    ensures DescendantsOfEach(s, [c] + rest) == Descendants(s, c) + DescendantsOfEach(s, rest)
  {
    assert ([c] + rest)[1..] == rest;
  }

  /** Reversing a prefix one element longer puts that element first. */
  lemma ReversePrefix<T>(xs: seq<T>, k: nat)
    requires 0 < k <= |xs|
    ensures Reverse(xs[..k]) == [xs[k - 1]] + Reverse(xs[..k - 1])
  {
    var a := Reverse(xs[..k]);
    var b := [xs[k - 1]] + Reverse(xs[..k - 1]);
    assert |a| == |b|;
    forall i | 0 <= i < |a| ensures a[i] == b[i] {
      if i > 0 { assert b[i] == Reverse(xs[..k - 1])[i - 1]; }
    }
  }

  /** Every id in the subtrees of a node's first k children belongs to an element. */
  lemma ForestKnown(s: Structure, e: Element, k: nat)
    requires Valid(s) && e.id in Nodes(s) && k <= ChildCount(Nodes(s)[e.id])
    ensures forall i :: 0 <= i < |ForestIds(Nodes(s)[e.id], k)| ==> ForestIds(Nodes(s)[e.id], k)[i] in s.elements
  {
    var n := Nodes(s)[e.id];
    NodesStored(s);
    NodesIndexed(s);
    assert Stored(Nodes(s), n);
    ForestInMap(Nodes(s), n, k);
    var ids := ForestIds(n, k);
    forall i | 0 <= i < |ids| ensures ids[i] in s.elements {
      var q := ids[i];
      assert q in Nodes(s);
      assert q in s.index && q in s.elements;
    }
  }

  /** Looking up the subtree of the k-th child's node gives the descendants of the k-th child. */
  lemma SubtreeLookup(s: Structure, e: Element, k: nat)
    requires Valid(s) && e.id in Nodes(s) && 0 < k <= ChildCount(Nodes(s)[e.id])
    ensures var cn := Nodes(s)[e.id].children.nodes[k - 1];
      && (forall i :: 0 <= i < |SubtreeIds(cn)| ==> SubtreeIds(cn)[i] in s.elements)
      && Lookup(s, SubtreeIds(cn)) == Descendants(s, Children(s, e)[k - 1])
  {
    var n := Nodes(s)[e.id];
    ChildrenKnown(s, e.id);
    var cn := n.children.nodes[k - 1];
    var c := Children(s, e)[k - 1];
    assert c.id == cn.id && Nodes(s)[c.id] == cn && s.elements[cn.id] == c;
    var sub := ForestIds(cn, ChildCount(cn));
    ForestKnown(s, c, ChildCount(cn));
    assert SubtreeIds(cn) == sub + [cn.id];
    LookupConcat(s, sub, [cn.id]);
    assert Lookup(s, sub) == StrictDescendants(s, c);
  }

  /** The subtrees of a node's first k children, looked up, are the descendants of those children taken last first. */
  lemma {:induction false} ForestLookup(s: Structure, e: Element, k: nat)
    requires Valid(s) && e.id in Nodes(s) && k <= ChildCount(Nodes(s)[e.id])
    ensures var n := Nodes(s)[e.id];
      && (forall i :: 0 <= i < |ForestIds(n, k)| ==> ForestIds(n, k)[i] in s.elements)
      && Lookup(s, ForestIds(n, k)) == DescendantsOfEach(s, Reverse(Children(s, e)[..k]))
  {
    var n := Nodes(s)[e.id];
    ForestKnown(s, e, k);
    var cs := Children(s, e);
    if k == 0 {
      assert cs[..0] == [];
    } else {
      var cn := n.children.nodes[k - 1];
      ForestLookup(s, e, k - 1);
      SubtreeLookup(s, e, k);
      ForestKnown(s, e, k - 1);
      assert ForestIds(n, k) == SubtreeIds(cn) + ForestIds(n, k - 1);
      LookupConcat(s, SubtreeIds(cn), ForestIds(n, k - 1));
      ReversePrefix(cs, k);
      DescendantsOfEachCons(s, cs[k - 1], Reverse(cs[..k - 1]));
    }
  }

  /**
   * The strict descendants of an element are the descendants of its
   * children, taken in reverse child order and concatenated.
   */
  lemma StrictDescendantsOfChildren(s: Structure, e: Element)
    requires Valid(s)
    ensures StrictDescendants(s, e) == DescendantsOfEach(s, Reverse(Children(s, e)))
  {
    if e.id in Nodes(s) {
      var n := Nodes(s)[e.id];
      ForestLookup(s, e, ChildCount(n));
      assert Children(s, e)[..ChildCount(n)] == Children(s, e);
    }
  }

  /**
   * The greatest depth among the element and its descendants, or None when
   * the scan did not reach the element (the source's max of null depths).
   */
  function MaxDescendantDepth(s: Structure, e: Element): (r: Option<int>)
    requires Valid(s)
    ensures r.Some? <==> e.id in Nodes(s)
    ensures r.Some? ==> forall d :: d in Descendants(s, e) ==> Depth(s, d).Some? && Depth(s, d).value <= r.value
    ensures r.Some? ==> exists d :: d in Descendants(s, e) && Depth(s, d) == Some(r.value)
  {
    if e.id in Nodes(s) then
      var ds := Descendants(s, e);
      StrictDescendantsDeeper(s, e);
      assert forall i :: 0 <= i < |ds| ==> ds[i].id in Nodes(s);
      var depths := seq(|ds|, i requires 0 <= i < |ds| => Depth(s, ds[i]).value);
      var m := MaxOf(depths);
      assert forall d :: d in ds ==> Depth(s, d).Some? && Depth(s, d).value <= m by {
        forall d | d in ds ensures Depth(s, d).Some? && Depth(s, d).value <= m {
          var i :| 0 <= i < |ds| && ds[i] == d;
          assert depths[i] <= m;
        }
      }
      var j :| 0 <= j < |depths| && depths[j] == m;
      assert ds[j] in ds && Depth(s, ds[j]) == Some(m);
      Some(m)
    else None
  }

  /** An element's deepest descendant is at least as deep as the element; a childless element is its own deepest. */
  lemma MaxDescendantDepthBounds(s: Structure, e: Element)
    requires Valid(s) && e.id in Nodes(s)
    ensures MaxDescendantDepth(s, e).value >= Depth(s, e).value
    ensures Children(s, e) == [] ==> MaxDescendantDepth(s, e) == Depth(s, e)
  {
    var ds := Descendants(s, e);
    assert ds[|ds| - 1] == e;
    assert e in ds;
    if Children(s, e) == [] {
      StrictDescendantsOfChildren(s, e);
      assert Reverse(Children(s, e)) == [];
      assert ds == [e];
    }
  }

  /** The node that orders the recursion over children: a child's node is a component of its parent's. */
  function Rank(s: Structure, e: Element): SceneTreeNode
    requires Valid(s)
  {
    if e.id in Nodes(s) then Nodes(s)[e.id] else SceneTreeNode(e.id, NoChildren, None, 0)
  }

  /** The i-th child's node is the i-th entry of the element's child list. */
  lemma ChildRank(s: Structure, e: Element, i: int)
    requires Valid(s) && 0 <= i < |Children(s, e)|
    ensures e.id in Nodes(s) && Nodes(s)[e.id].children.ChildNodes?
    ensures Rank(s, Children(s, e)[i]) == Nodes(s)[e.id].children.nodes[i]
    ensures Rank(s, Children(s, e)[i]) < Rank(s, e)
  {
    ChildrenKnown(s, e.id);
  }

  /**
   * A GROUP whose children, apart from adjustment layers and empty groups,
   * are only its GROUPEND: exactly one child remains after removing those.
   */
  function IsEmptyGroup(s: Structure, e: Element): (r: bool)
    requires Valid(s)
    ensures r ==> e.kind == Group && |Children(s, e)| >= 1
    decreases Rank(s, e), 1, 0
  {
    e.kind == Group && KeptChildren(s, e, |Children(s, e)|) == 1
  }

  /** How many of the first k children are neither adjustment layers nor empty groups. */
  function KeptChildren(s: Structure, e: Element, k: nat): (r: nat)
    requires Valid(s) && k <= |Children(s, e)|
    ensures r <= k
    decreases Rank(s, e), 0, k
  {
    if k == 0 then 0
    else
      var c := Children(s, e)[k - 1];
      ChildRank(s, e, k - 1);
      KeptChildren(s, e, k - 1) + (if c.kind == Adjustment || IsEmptyGroup(s, c) then 0 else 1)
  }

  /** An empty group: a GROUP all of whose children but one are adjustment layers or empty groups. */
  lemma {:induction false} EmptyGroupWitness(s: Structure, e: Element, j: nat)
    requires Valid(s) && e.kind == Group && j < |Children(s, e)|
    requires forall i :: 0 <= i < |Children(s, e)| && i != j ==>
      Children(s, e)[i].kind == Adjustment || IsEmptyGroup(s, Children(s, e)[i])
    requires Children(s, e)[j].kind !in {Adjustment, Group}
    ensures IsEmptyGroup(s, e)
  {
    var cs := Children(s, e);
    var k := |cs|;
    while k > 0
      invariant 0 <= k <= |cs|
      invariant KeptChildren(s, e, |cs|) == KeptChildren(s, e, k) + (if j >= k then 1 else 0)
    {
      k := k - 1;
    }
  }

  /** The smallest rectangle enclosing all the given ones; None for none (Bounds.union). */
  function Union(bs: seq<Bounds>): (r: Option<Bounds>)
    ensures r.None? <==> bs == []
    ensures r.Some? ==> forall i :: 0 <= i < |bs| ==> Encloses(r.value, bs[i])
    ensures r.Some? ==>
      && (exists i :: 0 <= i < |bs| && r.value.top == bs[i].top)
      && (exists i :: 0 <= i < |bs| && r.value.left == bs[i].left)
      && (exists i :: 0 <= i < |bs| && r.value.bottom == bs[i].bottom)
      && (exists i :: 0 <= i < |bs| && r.value.right == bs[i].right)
  {
    if bs == [] then None
    else
      match Union(bs[1..])
      case None => Some(bs[0])
      case Some(u) =>
        ShiftWitness(bs, u);
        Some(Bounds(if bs[0].top < u.top then bs[0].top else u.top,
                    if bs[0].left < u.left then bs[0].left else u.left,
                    if bs[0].bottom > u.bottom then bs[0].bottom else u.bottom,
                    if bs[0].right > u.right then bs[0].right else u.right))
  }

  /** Each edge of u that a rectangle of the tail attains, a rectangle of the whole list attains one place later. */
  lemma ShiftWitness(bs: seq<Bounds>, u: Bounds)
    requires bs != []
    requires (exists i :: 0 <= i < |bs[1..]| && u.top == bs[1..][i].top)
      && (exists i :: 0 <= i < |bs[1..]| && u.left == bs[1..][i].left)
      && (exists i :: 0 <= i < |bs[1..]| && u.bottom == bs[1..][i].bottom)
      && (exists i :: 0 <= i < |bs[1..]| && u.right == bs[1..][i].right)
    ensures (exists i :: 1 <= i < |bs| && u.top == bs[i].top)
      && (exists i :: 1 <= i < |bs| && u.left == bs[i].left)
      && (exists i :: 1 <= i < |bs| && u.bottom == bs[i].bottom)
      && (exists i :: 1 <= i < |bs| && u.right == bs[i].right)
  {
    var t :| 0 <= t < |bs[1..]| && u.top == bs[1..][t].top;
    var l :| 0 <= l < |bs[1..]| && u.left == bs[1..][l].left;
    var b :| 0 <= b < |bs[1..]| && u.bottom == bs[1..][b].bottom;
    var r :| 0 <= r < |bs[1..]| && u.right == bs[1..][r].right;
    assert bs[t + 1] == bs[1..][t] && bs[l + 1] == bs[1..][l] && bs[b + 1] == bs[1..][b] && bs[r + 1] == bs[1..][r];
  }

  /** Rectangle a contains rectangle b. */
  predicate Encloses(a: Bounds, b: Bounds) {
    a.top <= b.top && a.left <= b.left && b.bottom <= a.bottom && b.right <= a.right
  }

  /**
   * The bounds that enclose an element's content: an artboard's own bounds,
   * the union of a group's children's non-empty child bounds, None for a
   * GROUPEND, and an element's own bounds otherwise.
   */
  function ChildBounds(s: Structure, e: Element): (r: Option<Bounds>)
    requires Valid(s)
    ensures e.kind == GroupEnd ==> r.None?
    ensures e.kind != Group && e.kind != GroupEnd ==> r == e.bounds
    ensures e.kind == Group && e.isArtboard ==> r == e.bounds
    ensures e.kind == Group && !e.isArtboard ==>
      (r.None? <==> NonEmptyChildBounds(s, e, |Children(s, e)|) == []) &&
      (r.Some? ==> forall b :: b in NonEmptyChildBounds(s, e, |Children(s, e)|) ==> Encloses(r.value, b))
    decreases Rank(s, e), 1, 0
  {
    match e.kind
    case Group =>
      if e.isArtboard then e.bounds
      else
        var bs := NonEmptyChildBounds(s, e, |Children(s, e)|);
        Union(bs)
    case GroupEnd => None
    case _ => e.bounds
  }

  /** The child bounds of the first k children that exist and have positive area, in child order. */
  function NonEmptyChildBounds(s: Structure, e: Element, k: nat): (r: seq<Bounds>)
    requires Valid(s) && k <= |Children(s, e)|
    ensures forall b :: b in r ==> b.Area() > 0
    ensures |r| <= k
    decreases Rank(s, e), 0, k
  {
    if k == 0 then [] else NonEmptyChildBounds(s, e, k - 1) + ChildBoundsIfNonEmpty(s, e, k - 1)
  }

  /** The j-th child's child bounds when they exist and have positive area, as a list of at most one. */
  function ChildBoundsIfNonEmpty(s: Structure, e: Element, j: nat): (r: seq<Bounds>)
    requires Valid(s) && j < |Children(s, e)|
    ensures forall b :: b in r ==> b.Area() > 0
    ensures |r| <= 1
    decreases Rank(s, e), 0, 0
  {
    var c := Children(s, e)[j];
    ChildRank(s, e, j);
    var b := ChildBounds(s, c);
    if b.Some? && b.value.Area() > 0 then [b.value] else []
  }

  /** Every child bound with positive area is among the collected ones, hence inside the group's child bounds. */
  lemma {:induction false} ChildBoundsEnclose(s: Structure, e: Element, k: nat, i: nat, x: Bounds)
    requires Valid(s) && i < k <= |Children(s, e)|
    requires ChildBounds(s, Children(s, e)[i]) == Some(x) && x.Area() > 0
    ensures x in NonEmptyChildBounds(s, e, k)
  {
    var prev, last := NonEmptyChildBounds(s, e, k - 1), ChildBoundsIfNonEmpty(s, e, k - 1);
    assert NonEmptyChildBounds(s, e, k) == prev + last;
    if i < k - 1 {
      ChildBoundsEnclose(s, e, k - 1, i, x);
      assert x in prev;
    } else {
      assert last == [x];
    }
  }

  /**
   * A group that is not an artboard has child bounds enclosing the child
   * bounds of each of its children whose area is positive.
   */
  lemma GroupBoundsEncloseChildren(s: Structure, e: Element, i: nat)
    requires Valid(s) && e.kind == Group && !e.isArtboard && i < |Children(s, e)|
    requires var b := ChildBounds(s, Children(s, e)[i]); b.Some? && b.value.Area() > 0
    ensures ChildBounds(s, e).Some?
    ensures Encloses(ChildBounds(s, e).value, ChildBounds(s, Children(s, e)[i]).value)
  {
    ChildBoundsEnclose(s, e, |Children(s, e)|, i, ChildBounds(s, Children(s, e)[i]).value);
  }

  /** The selected elements with all their descendants, each once, in order of first appearance. */
  function AllSelected(s: Structure): (r: seq<Element>)
    requires Valid(s)
    ensures NoDup(r)
    ensures forall x :: x in r <==> exists a :: a in Selected(s) && x in Descendants(s, a)
  {
    var r := Dedup(DescendantsOfEach(s, Selected(s)));
    assert forall x :: x in r <==> exists a :: a in Selected(s) && x in Descendants(s, a) by {
      forall x ensures x in r <==> exists a :: a in Selected(s) && x in Descendants(s, a) {
        DescendantsOfEachMember(s, Selected(s), x);
        if exists a :: a in Selected(s) && x in Descendants(s, a) {
          var a :| a in Selected(s) && x in Descendants(s, a);
          var i :| 0 <= i < |Selected(s)| && Selected(s)[i] == a;
        }
      }
    }
    r
  }

  /** The selection counts as locked when it is empty or holds the background or a locked element. */
  function SelectedLocked(s: Structure): (r: bool)
    requires Valid(s)
    ensures r <==> Selected(s) == [] || exists e :: e in Selected(s) && (e.isBackground || e.locked)
  {
    var sel := Selected(s);
    sel == [] || exists i :: 0 <= i < |sel| && (sel[i].isBackground || sel[i].locked)
  }

  /**
   * The selection may be deleted when something is selected and some
   * element outside the selected subtrees is neither a GROUP nor a GROUPEND,
   * so that a graphic layer remains.
   */
  function SelectedLayersDeletable(s: Structure): (r: bool)
    requires Valid(s)
    ensures r <==> (AllSelected(s) != [] &&
      exists e :: e in All(s) && e !in AllSelected(s) && e.kind != GroupEnd && e.kind != Group)
  {
    var allSelected := AllSelected(s);
    var notSelected := Difference(All(s), allSelected);
    allSelected != [] && notSelected != [] &&
      exists i :: 0 <= i < |notSelected| && notSelected[i].kind != GroupEnd && notSelected[i].kind != Group
  }

  /** Positions are 1-based and round-trip: the element at the position of an indexed element is that element. */
  lemma IndexRoundTrip(s: Structure, e: Element)
    requires Valid(s) && e.id in s.index && s.elements[e.id] == e
    ensures IndexOf(s, e).Some?
    ensures ByIndex(s, IndexOf(s, e).value) == Some(e)
  {
  }

  /** The i-th id of the index sits at position i + 1. */
  lemma PositionOfIndexed(s: Structure, i: int)
    requires Valid(s) && 0 <= i < |s.index|
    ensures IndexOf(s, s.elements[s.index[i]]) == Some(i + 1)
  {
    assert s.index[i] in s.index && s.elements[s.index[i]].id == s.index[i];
    var p := IndexOf(s, s.elements[s.index[i]]).value;
    assert s.index[p - 1] == s.index[i];
  }
}
