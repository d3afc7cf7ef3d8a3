/**
 * The climb behind the structure's selectable layers: starting from an
 * element, each ancestor not yet visited is taken out of the list of
 * selectable elements, recorded as visited, and replaced by its children,
 * until the climb reaches the root or an ancestor visited before.
 *
 * The visited-parents object that the source shares between calls is
 * passed in and handed back as a set of ids.
 */
module AncestorSiblings {
  import opened Common
  import opened ElementModel
  import opened SceneTreeFacts
  import opened ElementStructure

  /** The list without the given element (pull). */
  function Pull(es: seq<Element>, p: Element): (r: seq<Element>)
    ensures forall x :: x in r <==> x in es && x != p
  {
    Filter(es, (x: Element) => x != p)
  }

  /** How far the climb from an ancestor can still go: 0 when there is none, more for a deeper one. */
  function Height(s: Structure, a: Option<Element>): nat
    requires Valid(s)
  {
    if a.None? then 0 else if Depth(s, a.value).Some? then Depth(s, a.value).value + 2 else 1
  }

  /** The climb goes up: an element's parent, if any, is lower in this measure. */
  lemma ParentLower(s: Structure, e: Element)
    requires Valid(s)
    ensures Height(s, Parent(s, e)) < Height(s, Some(e))
  {
  }

  /** Where a climb ends: the list of selectable elements and the visited ancestor ids. */
  datatype Climbed = Climbed(list: seq<Element>, visited: set<int>)

  /**
   * The climb from an ancestor: while there is one and it was not visited,
   * pull it from the list, record it, add its children, and go on to its
   * parent. Returns the list and the visited ids: the visited ids only
   * grow, a first visit records the ancestor, and without an ancestor or
   * with one already visited nothing changes.
   */
  function Climb(s: Structure, a: Option<Element>, selectable: seq<Element>, visited: set<int>): (r: Climbed)
    requires Valid(s)
    ensures visited <= r.visited
    ensures a.Some? && a.value.id !in visited ==> a.value.id in r.visited
    ensures a.None? || a.value.id in visited ==> r == Climbed(selectable, visited)
    decreases Height(s, a)
  {
    if a.None? || a.value.id in visited then Climbed(selectable, visited)
    else
      ParentLower(s, a.value);
      Climb(s, Parent(s, a.value), Pull(selectable, a.value) + Children(s, a.value), visited + {a.value.id})
  }

  /**
   * _replaceAncestorWithSiblingsOf: the while loop over the ancestors,
   * with the list and the visited ids updated step by step, ends where the
   * climb from the element's parent does.
   */
  method ReplaceAncestorWithSiblingsOf(s: Structure, element: Element, selectableElements: seq<Element>, visitedParents: set<int>)
    returns (r: seq<Element>, visited: set<int>)
    requires Valid(s)
    ensures Climbed(r, visited) == Climb(s, Parent(s, element), selectableElements, visitedParents)
  {
    var ancestor := Parent(s, element);
    if ancestor.None? {
      return selectableElements, visitedParents;
    }
    r, visited := selectableElements, visitedParents;
    while ancestor.Some? && ancestor.value.id !in visited
      invariant Climb(s, ancestor, r, visited) == Climb(s, Parent(s, element), selectableElements, visitedParents)
      decreases Height(s, ancestor)
    {
      var a := ancestor.value;
      r := Pull(r, a);
      visited := visited + {a.id};
      r := r + Children(s, a);
      ParentLower(s, a);
      ancestor := Parent(s, a);
    }
  }

  /** One turn of the climb, at an ancestor not visited before. */
  lemma ClimbTurn(s: Structure, p: Element, selectable: seq<Element>, visited: set<int>)
    requires Valid(s) && p.id !in visited
    ensures Climb(s, Some(p), selectable, visited) ==
      Climb(s, Parent(s, p), Pull(selectable, p) + Children(s, p), visited + {p.id})
  {
  }

  /** The ids of the strict ancestors of an element. */
  function AncestorIds(s: Structure, e: Element): (r: set<int>)
    requires Valid(s)
    ensures forall k :: k in r <==> exists x :: x in StrictAncestors(s, e) && x.id == k
  {
    set x | x in StrictAncestors(s, e) :: x.id
  }

  /**
   * The climb from an element's parent records exactly its strict
   * ancestors up to the first one visited before: no other id, and all of
   * them when none was visited before.
   */
  lemma {:induction false} ClimbVisits(s: Structure, e: Element, selectable: seq<Element>, visited: set<int>)
    requires Valid(s)
    ensures var out := Climb(s, Parent(s, e), selectable, visited).visited;
      && visited <= out
      && out - visited <= AncestorIds(s, e)
      && (AncestorIds(s, e) !! visited ==> AncestorIds(s, e) <= out)
    decreases Height(s, Some(e))
  {
    match Parent(s, e)
    case None =>
      assert StrictAncestors(s, e) == [];
    case Some(p) =>
      AncestorIdsStep(s, e, p);
      if p.id !in visited {
        ParentLower(s, e);
        ClimbTurn(s, p, selectable, visited);
        NotOwnAncestor(s, p);
        ClimbVisits(s, p, Pull(selectable, p) + Children(s, p), visited + {p.id});
      }
  }

  /** An element's id is not among its strict ancestors' ids: each of those lies higher up. */
  lemma NotOwnAncestor(s: Structure, e: Element)
    requires Valid(s)
    ensures e.id !in AncestorIds(s, e)
  {
    AncestorChain(s, e);
    var r := StrictAncestors(s, e);
    forall i | 0 <= i < |r| ensures r[i].id != e.id {
      assert Depth(s, r[i]) == Some(i);
    }
  }

  /** The strict ancestors' ids of an element with a parent: the parent's, and the parent's own id. */
  lemma AncestorIdsStep(s: Structure, e: Element, p: Element)
    requires Valid(s) && Parent(s, e) == Some(p)
    ensures AncestorIds(s, e) == AncestorIds(s, p) + {p.id}
  {
    assert StrictAncestors(s, e) == StrictAncestors(s, p) + [p];
  }

  /** A child sits one level below its parent. */
  lemma ChildDepth(s: Structure, p: Element, c: Element)
    requires Valid(s) && c in Children(s, p)
    ensures Depth(s, p).Some? && Depth(s, c).Some? && Depth(s, c).value == Depth(s, p).value + 1
  {
    var i :| 0 <= i < |Children(s, p)| && Children(s, p)[i] == c;
    NodesStored(s);
    ChildrenKnown(s, p.id);
    var n := Nodes(s)[p.id];
    assert Linked(n);
    assert n.children.nodes[i].depth == n.depth + 1;
  }

  /** The ids the climb from an element's parent records belong to elements above the element. */
  lemma {:induction false} ClimbAbove(s: Structure, e: Element, selectable: seq<Element>, visited: set<int>)
    requires Valid(s)
    ensures var out := Climb(s, Parent(s, e), selectable, visited).visited;
      forall k :: k in out && k !in visited ==>
        k in s.elements && Depth(s, s.elements[k]).Some? && Depth(s, e).Some? && Depth(s, s.elements[k]).value < Depth(s, e).value
    decreases Height(s, Some(e))
  {
    match Parent(s, e)
    case None =>
    case Some(p) =>
      if p.id !in visited {
        ParentLower(s, e);
        ClimbTurn(s, p, selectable, visited);
        ClimbAbove(s, p, Pull(selectable, p) + Children(s, p), visited + {p.id});
      }
  }

  /** What the list held stays in it unless the climb recorded its id. */
  lemma {:induction false} ClimbKeeps(s: Structure, e: Element, selectable: seq<Element>, visited: set<int>)
    requires Valid(s)
    ensures var out := Climb(s, Parent(s, e), selectable, visited);
      forall x :: x in selectable && x.id !in out.visited - visited ==> x in out.list
    decreases Height(s, Some(e))
  {
    match Parent(s, e)
    case None =>
    case Some(p) =>
      if p.id !in visited {
        var next := Pull(selectable, p) + Children(s, p);
        ParentLower(s, e);
        ClimbTurn(s, p, selectable, visited);
        ClimbKeeps(s, p, next, visited + {p.id});
        ClimbVisits(s, p, next, visited + {p.id});
      }
  }

  /**
   * The climb replaces every ancestor it records by that ancestor's
   * children: each of them is in the resulting list.
   */
  lemma {:induction false} ClimbAddsSiblings(s: Structure, e: Element, selectable: seq<Element>, visited: set<int>)
    requires Valid(s)
    ensures var out := Climb(s, Parent(s, e), selectable, visited);
      forall k :: k in out.visited && k !in visited ==> k in s.elements && forall c :: c in Children(s, s.elements[k]) ==> c in out.list
    decreases Height(s, Some(e))
  {
    match Parent(s, e)
    case None =>
    case Some(p) =>
      if p.id !in visited {
        var next := Pull(selectable, p) + Children(s, p);
        var out := Climb(s, Parent(s, p), next, visited + {p.id});
        ParentLower(s, e);
        ClimbTurn(s, p, selectable, visited);
        ClimbAddsSiblings(s, p, next, visited + {p.id});
        ClimbAbove(s, p, next, visited + {p.id});
        ClimbKeeps(s, p, next, visited + {p.id});
        forall c | c in Children(s, p) ensures c in out.list {
          ChildDepth(s, p, c);
          assert c.id in s.elements && s.elements[c.id] == c;
        }
      }
  }
}
