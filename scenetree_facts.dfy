/**
 * Properties of the scene-tree scan: the shape of every level, the links
 * between a node and its children, exact consumption of the positions for
 * elements with distinct ids, and the parent/depth relation of the node map.
 */
module SceneTreeFacts {
  import opened Common
  import opened ElementModel
  import opened SceneTree

  /** Every child of a node names that node as parent and sits one level deeper, all the way down. */
  predicate Linked(n: SceneTreeNode)
    decreases n
  {
    match n.children
    case NoChildren => true
    case ChildNodes(cs) =>
      forall i :: 0 <= i < |cs| ==> cs[i].parent == Some(n.id) && cs[i].depth == n.depth + 1 && Linked(cs[i])
  }

  /** The step at an element that opens a level, written out: the level below is scanned first. */
  lemma StepAtOpen(es: seq<Element>, parent: Option<int>, index: int, depth: int, nodes: map<int, SceneTreeNode>)
    requires 0 <= index < |es| && OpensLevel(es[index])
    ensures var inner := Level(es, Some(es[index].id), index - 1, depth + 1, nodes, [], []);
      var node := SceneTreeNode(es[index].id, ChildNodes(inner.roots), parent, depth);
      StepAt(es, parent, index, depth, nodes) == Step(node, inner.nodes[es[index].id := node], index - 1 - (|inner.nodes| - |nodes|))
  {
  }

  /** A level only appends to its accumulators, one node per visited position, starting at `index`. */
  lemma {:induction false} LevelPrefix(es: seq<Element>, parent: Option<int>, index: int, depth: int,
                                       nodes: map<int, SceneTreeNode>, roots: seq<SceneTreeNode>, visited: seq<int>)
    requires index < |es|
    requires |roots| == |visited|
    ensures var r := Level(es, parent, index, depth, nodes, roots, visited);
      && |r.roots| == |r.visited| >= |visited|
      && r.roots[..|roots|] == roots && r.visited[..|visited|] == visited
      && (index >= 0 ==> |r.visited| > |visited| && r.visited[|visited|] == index)
    decreases if index < 0 then 0 else index + 1, 1
  {
    if index >= 0 {
      var s := StepAt(es, parent, index, depth, nodes);
      if es[index].kind == GroupEnd {
        assert Level(es, parent, index, depth, nodes, roots, visited)
            == ScanResult(roots + [s.node], s.nodes, s.resume, visited + [index]);
      } else {
        LevelPrefixNext(es, parent, index, depth, nodes, roots, visited);
      }
    }
  }

  /** LevelPrefix past an element that is not a GROUPEND: the level goes on where the step resumes. */
  lemma {:induction false} LevelPrefixNext(es: seq<Element>, parent: Option<int>, index: int, depth: int,
                                           nodes: map<int, SceneTreeNode>, roots: seq<SceneTreeNode>, visited: seq<int>)
    requires 0 <= index < |es| && es[index].kind != GroupEnd
    requires |roots| == |visited|
    ensures var r := Level(es, parent, index, depth, nodes, roots, visited);
      && |r.roots| == |r.visited| > |visited|
      && r.roots[..|roots|] == roots && r.visited[..|visited|] == visited
      && r.visited[|visited|] == index
    decreases index + 1, 0
  {
    var s := StepAt(es, parent, index, depth, nodes);
    assert Level(es, parent, index, depth, nodes, roots, visited)
        == Level(es, parent, s.resume, depth, s.nodes, roots + [s.node], visited + [index]);
    LevelPrefix(es, parent, s.resume, depth, s.nodes, roots + [s.node], visited + [index]);
    var r := Level(es, parent, s.resume, depth, s.nodes, roots + [s.node], visited + [index]);
    assert r.roots[..|roots| + 1][..|roots|] == roots;
    assert r.visited[..|visited| + 1][..|visited|] == visited;
  }

  /** The positions a level visits lie in [0, index] and strictly descend: the scan runs from the end down. */
  lemma {:induction false} LevelDescends(es: seq<Element>, parent: Option<int>, index: int, depth: int,
                                         nodes: map<int, SceneTreeNode>, roots: seq<SceneTreeNode>, visited: seq<int>)
    requires index < |es|
    requires |roots| == |visited|
    ensures var r := Level(es, parent, index, depth, nodes, roots, visited);
      && (forall k :: |visited| <= k < |r.visited| ==> 0 <= r.visited[k] <= index)
      && (forall k :: |visited| <= k < |r.visited| - 1 ==> r.visited[k + 1] < r.visited[k])
    decreases if index < 0 then 0 else index + 1, 1
  {
    if index >= 0 {
      var s := StepAt(es, parent, index, depth, nodes);
      if es[index].kind == GroupEnd {
        assert Level(es, parent, index, depth, nodes, roots, visited)
            == ScanResult(roots + [s.node], s.nodes, s.resume, visited + [index]);
      } else {
        LevelDescendsNext(es, parent, index, depth, nodes, roots, visited);
      }
    }
  }

  /** LevelDescends past an element that is not a GROUPEND. */
  lemma {:induction false} LevelDescendsNext(es: seq<Element>, parent: Option<int>, index: int, depth: int,
                                             nodes: map<int, SceneTreeNode>, roots: seq<SceneTreeNode>, visited: seq<int>)
    requires 0 <= index < |es| && es[index].kind != GroupEnd
    requires |roots| == |visited|
    ensures var r := Level(es, parent, index, depth, nodes, roots, visited);
      && (forall k :: |visited| <= k < |r.visited| ==> 0 <= r.visited[k] <= index)
      && (forall k :: |visited| <= k < |r.visited| - 1 ==> r.visited[k + 1] < r.visited[k])
    decreases index + 1, 0
  {
    var s := StepAt(es, parent, index, depth, nodes);
    assert Level(es, parent, index, depth, nodes, roots, visited)
        == Level(es, parent, s.resume, depth, s.nodes, roots + [s.node], visited + [index]);
    var r := Level(es, parent, s.resume, depth, s.nodes, roots + [s.node], visited + [index]);
    LevelDescends(es, parent, s.resume, depth, s.nodes, roots + [s.node], visited + [index]);
    LevelPrefix(es, parent, s.resume, depth, s.nodes, roots + [s.node], visited + [index]);
    assert r.visited[|visited|] == index by {
      assert r.visited[..|visited| + 1][|visited|] == index;
    }
  }

  /**
   * Each node a level makes belongs to the element at its position, records
   * the level's parent and depth, and has children exactly when that element
   * opens a level.
   */
  lemma {:induction false} LevelNodes(es: seq<Element>, parent: Option<int>, index: int, depth: int,
                                      nodes: map<int, SceneTreeNode>, roots: seq<SceneTreeNode>, visited: seq<int>)
    requires index < |es|
    requires |roots| == |visited|
    ensures var r := Level(es, parent, index, depth, nodes, roots, visited);
      forall k :: |visited| <= k < |r.visited| ==>
        0 <= r.visited[k] < |es| && k < |r.roots| &&
        r.roots[k].id == es[r.visited[k]].id && r.roots[k].parent == parent && r.roots[k].depth == depth &&
        (r.roots[k].children.NoChildren? <==> !OpensLevel(es[r.visited[k]]))
    decreases if index < 0 then 0 else index + 1
  {
    LevelPrefix(es, parent, index, depth, nodes, roots, visited);
    LevelDescends(es, parent, index, depth, nodes, roots, visited);
    if index >= 0 && es[index].kind != GroupEnd {
      var s := StepAt(es, parent, index, depth, nodes);
      LevelNodes(es, parent, s.resume, depth, s.nodes, roots + [s.node], visited + [index]);
      LevelPrefix(es, parent, s.resume, depth, s.nodes, roots + [s.node], visited + [index]);
      var r := Level(es, parent, s.resume, depth, s.nodes, roots + [s.node], visited + [index]);
      assert r.roots[|visited|] == r.roots[..|roots| + 1][|visited|] == s.node;
    }
  }

  /**
   * A level goes on past every element but a GROUPEND; when it stops before
   * running out of positions, its last node is a GROUPEND's.
   */
  lemma {:induction false} LevelStops(es: seq<Element>, parent: Option<int>, index: int, depth: int,
                                      nodes: map<int, SceneTreeNode>, roots: seq<SceneTreeNode>, visited: seq<int>)
    requires index < |es|
    requires |roots| == |visited|
    ensures var r := Level(es, parent, index, depth, nodes, roots, visited);
      && (forall k :: |visited| <= k < |r.visited| - 1 ==> 0 <= r.visited[k] < |es| && es[r.visited[k]].kind != GroupEnd)
      && (r.index >= 0 ==> |r.visited| > |visited| && 0 <= r.visited[|r.visited| - 1] < |es| &&
                           es[r.visited[|r.visited| - 1]].kind == GroupEnd)
    decreases if index < 0 then 0 else index + 1
  {
    LevelPrefix(es, parent, index, depth, nodes, roots, visited);
    LevelDescends(es, parent, index, depth, nodes, roots, visited);
    if index >= 0 && es[index].kind != GroupEnd {
      var s := StepAt(es, parent, index, depth, nodes);
      LevelStops(es, parent, s.resume, depth, s.nodes, roots + [s.node], visited + [index]);
      LevelPrefix(es, parent, s.resume, depth, s.nodes, roots + [s.node], visited + [index]);
    }
  }

  /** Every node a level makes is linked to its children: they name it as parent and sit one level deeper. */
  lemma {:induction false} LevelLinked(es: seq<Element>, parent: Option<int>, index: int, depth: int,
                                       nodes: map<int, SceneTreeNode>, roots: seq<SceneTreeNode>, visited: seq<int>)
    requires index < |es|
    requires |roots| == |visited|
    ensures var r := Level(es, parent, index, depth, nodes, roots, visited);
      forall k :: |roots| <= k < |r.roots| ==> Linked(r.roots[k])
    decreases if index < 0 then 0 else index + 1, 1
  {
    if index >= 0 {
      var s := StepAt(es, parent, index, depth, nodes);
      StepLinked(es, parent, index, depth, nodes);
      var r := Level(es, parent, index, depth, nodes, roots, visited);
      if es[index].kind == GroupEnd {
        assert r == ScanResult(roots + [s.node], s.nodes, s.resume, visited + [index]);
        LinkedFrom(r.roots, |roots|, s.node);
      } else {
        LevelLinked(es, parent, s.resume, depth, s.nodes, roots + [s.node], visited + [index]);
        LevelPrefix(es, parent, s.resume, depth, s.nodes, roots + [s.node], visited + [index]);
        var next := Level(es, parent, s.resume, depth, s.nodes, roots + [s.node], visited + [index]);
        assert r == next;
        assert next.roots[|roots|] == next.roots[..|roots| + 1][|roots|] == s.node;
        LinkedFrom(next.roots, |roots|, s.node);
      }
    }
  }

  /** A linked node followed by linked nodes: all of them are linked. */
  lemma LinkedFrom(rs: seq<SceneTreeNode>, n: nat, node: SceneTreeNode)
    requires n < |rs| && rs[n] == node && Linked(node)
    requires forall k :: n + 1 <= k < |rs| ==> Linked(rs[k])
    ensures forall k :: n <= k < |rs| ==> Linked(rs[k])
  {
  }

  /** The node made at one position is linked to its children. */
  lemma {:induction false} StepLinked(es: seq<Element>, parent: Option<int>, index: int, depth: int,
                                      nodes: map<int, SceneTreeNode>)
    requires 0 <= index < |es|
    ensures Linked(StepAt(es, parent, index, depth, nodes).node)
    decreases index + 1, 0
  {
    var e := es[index];
    if OpensLevel(e) {
      var inner := Level(es, Some(e.id), index - 1, depth + 1, nodes, [], []);
      LevelLinked(es, Some(e.id), index - 1, depth + 1, nodes, [], []);
      LevelNodes(es, Some(e.id), index - 1, depth + 1, nodes, [], []);
      LevelPrefix(es, Some(e.id), index - 1, depth + 1, nodes, [], []);
      StepAtOpen(es, parent, index, depth, nodes);
      WrapLinked(e.id, parent, depth, inner.roots);
    }
  }

  /** A node whose children name it as parent, sit one level deeper and are linked, is linked. */
  lemma WrapLinked(id: int, parent: Option<int>, depth: int, rs: seq<SceneTreeNode>)
    requires forall k :: 0 <= k < |rs| ==> rs[k].parent == Some(id) && rs[k].depth == depth + 1 && Linked(rs[k])
    ensures Linked(SceneTreeNode(id, ChildNodes(rs), parent, depth))
  {
  }

  /** The elements have pairwise distinct ids. */
  predicate UniqueIds(es: seq<Element>) {
    forall i, j :: 0 <= i < j < |es| ==> es[i].id != es[j].id
  }

  /** No GROUPEND element is also flagged as a parent. */
  predicate PlainEnds(es: seq<Element>) {
    forall i :: 0 <= i < |es| && es[i].kind == GroupEnd ==> !es[i].isParent
  }

  /** No element at a position in [0, hi) has an entry in the map yet. */
  predicate FreshBelow(es: seq<Element>, nodes: map<int, SceneTreeNode>, hi: int)
    requires hi <= |es|
  {
    forall p :: 0 <= p < hi ==> es[p].id !in nodes
  }

  /**
   * Scanning down from position i with d levels open, the position of the
   * GROUPEND that closes the current level, or -1 when none does.
   */
  function Seek(es: seq<Element>, i: int, d: nat): (p: int)
    requires -1 <= i < |es|
    ensures -1 <= p <= i
    ensures p >= 0 ==> es[p].kind == GroupEnd
    decreases if i < 0 then 0 else i + 1
  {
    if i < 0 then -1
    else if es[i].kind == GroupEnd then (if d == 0 then i else Seek(es, i - 1, d - 1))
    else if OpensLevel(es[i]) then Seek(es, i - 1, d + 1)
    else Seek(es, i - 1, d)
  }

  /** With one more level open, the search first finds the current level's end and continues below it. */
  lemma {:induction false} SeekNested(es: seq<Element>, i: int, d: nat)
    requires -1 <= i < |es|
    ensures Seek(es, i, d + 1) == (var q := Seek(es, i, 0); if q < 0 then -1 else Seek(es, q - 1, d))
    decreases if i < 0 then 0 else i + 1, 1
  {
    if i >= 0 && es[i].kind != GroupEnd {
      if OpensLevel(es[i]) {
        SeekNestedOpen(es, i, d);
      } else {
        SeekNested(es, i - 1, d);
      }
    }
  }

  /** SeekNested at an element that opens a level: its own level is skipped first, with one level fewer left to close. */
  lemma {:induction false} SeekNestedOpen(es: seq<Element>, i: int, d: nat)
    requires 0 <= i < |es| && es[i].kind != GroupEnd && OpensLevel(es[i])
    ensures Seek(es, i, d + 1) == (var q := Seek(es, i, 0); if q < 0 then -1 else Seek(es, q - 1, d))
    decreases i + 1, 0
  {
    assert Seek(es, i, d + 1) == Seek(es, i - 1, d + 2);
    assert Seek(es, i, 0) == Seek(es, i - 1, 1);
    SeekNested(es, i - 1, d + 1);
    SeekNested(es, i - 1, 0);
    var q := Seek(es, i - 1, 0);
    if q >= 0 { SeekNested(es, q - 1, d); }
  }

  /** Where the level that an element at `index` opens would end, given as the position the caller resumes at. */
  function NestedResume(es: seq<Element>, index: int): int
    requires 0 <= index < |es|
  {
    if OpensLevel(es[index]) then (var q := Seek(es, index - 1, 0); if q < 0 then -1 else q - 1) else index - 1
  }

  /** Past an element that is not a GROUPEND, the level's end is the same sought from it or from where the scan resumes. */
  lemma SeekStep(es: seq<Element>, index: int)
    requires 0 <= index < |es|
    requires es[index].kind != GroupEnd
    ensures Seek(es, index, 0) == Seek(es, NestedResume(es, index), 0)
  {
    if OpensLevel(es[index]) {
      assert Seek(es, index, 0) == Seek(es, index - 1, 1);
      SeekPastLevel(es, index - 1);
    } else {
      assert Seek(es, index, 0) == Seek(es, index - 1, 0);
    }
  }

  /** With one level open, the search ends where the search from past the current level's end does. */
  lemma SeekPastLevel(es: seq<Element>, i: int)
    requires -1 <= i < |es|
    ensures var q := Seek(es, i, 0); Seek(es, i, 1) == if q < 0 then -1 else Seek(es, q - 1, 0)
  {
    SeekNested(es, i, 0);
  }

  /**
   * For distinct ids, one position of the scan consumes exactly the
   * positions down to the GROUPEND that closes the level it opens, and the
   * map gains one entry per consumed position, overwriting none.
   */
  lemma {:induction false} StepExact(es: seq<Element>, parent: Option<int>, index: int, depth: int,
                                     nodes: map<int, SceneTreeNode>)
    requires 0 <= index < |es|
    requires UniqueIds(es) && PlainEnds(es) && FreshBelow(es, nodes, index + 1)
    ensures var s := StepAt(es, parent, index, depth, nodes);
      && s.resume == NestedResume(es, index)
      && -1 <= s.resume < index
      && |s.nodes| == |nodes| + (index - s.resume)
      && (forall k :: k in nodes ==> k in s.nodes && s.nodes[k] == nodes[k])
      && (forall p :: s.resume < p <= index ==> es[p].id in s.nodes)
      && (forall p :: 0 <= p < |es| && (p <= s.resume || index < p) && es[p].id !in nodes ==> es[p].id !in s.nodes)
    decreases index + 1, 1
  {
    var e := es[index];
    if OpensLevel(e) {
      StepExactOpen(es, parent, index, depth, nodes);
    } else {
      var node := SceneTreeNode(e.id, NoChildren, parent, depth);
      var s := StepAt(es, parent, index, depth, nodes);
      assert s == Step(node, nodes[e.id := node], index - 1);
      forall p | 0 <= p < |es| && (p <= s.resume || index < p) && es[p].id !in nodes
        ensures es[p].id !in s.nodes
      {
        assert es[p].id != e.id;
      }
    }
  }

  /** StepExact for an element that opens a level: the level below consumes its positions first. */
  lemma {:induction false} StepExactOpen(es: seq<Element>, parent: Option<int>, index: int, depth: int,
                                         nodes: map<int, SceneTreeNode>)
    requires 0 <= index < |es| && OpensLevel(es[index])
    requires UniqueIds(es) && PlainEnds(es) && FreshBelow(es, nodes, index + 1)
    ensures var s := StepAt(es, parent, index, depth, nodes);
      && s.resume == NestedResume(es, index)
      && -1 <= s.resume < index
      && |s.nodes| == |nodes| + (index - s.resume)
      && (forall k :: k in nodes ==> k in s.nodes && s.nodes[k] == nodes[k])
      && (forall p :: s.resume < p <= index ==> es[p].id in s.nodes)
      && (forall p :: 0 <= p < |es| && (p <= s.resume || index < p) && es[p].id !in nodes ==> es[p].id !in s.nodes)
    decreases index + 1, 0
  {
    var e := es[index];
    LevelExact(es, Some(e.id), index - 1, depth + 1, nodes, [], []);
    var inner := Level(es, Some(e.id), index - 1, depth + 1, nodes, [], []);
    var node := SceneTreeNode(e.id, ChildNodes(inner.roots), parent, depth);
    StepAtOpen(es, parent, index, depth, nodes);
    OpenStepCounts(es, index, nodes, inner, node, StepAt(es, parent, index, depth, nodes));
    OpenStepKeeps(es, index, nodes, inner, node, StepAt(es, parent, index, depth, nodes));
  }

  /** StepExactOpen's counts on the step spelled out: it resumes where the level below stopped, one entry past that level's. */
  lemma OpenStepCounts(es: seq<Element>, index: int, nodes: map<int, SceneTreeNode>, inner: ScanResult, node: SceneTreeNode, s: Step)
    requires 0 <= index < |es| && OpensLevel(es[index])
    requires UniqueIds(es) && FreshBelow(es, nodes, index + 1)
    requires var q := Seek(es, index - 1, 0);
      && inner.index == (if q < 0 then -1 else q - 1)
      && |inner.nodes| == |nodes| + (index - 1 - inner.index)
      && (forall k :: k in nodes ==> k in inner.nodes && inner.nodes[k] == nodes[k])
      && (forall p :: inner.index < p <= index - 1 ==> es[p].id in inner.nodes)
      && (forall p :: 0 <= p < |es| && (p <= inner.index || index - 1 < p) && es[p].id !in nodes ==> es[p].id !in inner.nodes)
    requires node.id == es[index].id
    requires s == Step(node, inner.nodes[node.id := node], index - 1 - (|inner.nodes| - |nodes|))
    ensures && s.resume == NestedResume(es, index)
      && -1 <= s.resume < index
      && |s.nodes| == |nodes| + (index - s.resume)
  {
    assert es[index].id !in inner.nodes;
  }

  /** StepExactOpen's map facts on the step spelled out: old entries kept, the consumed positions in, the others still out. */
  lemma OpenStepKeeps(es: seq<Element>, index: int, nodes: map<int, SceneTreeNode>, inner: ScanResult, node: SceneTreeNode, s: Step)
    requires 0 <= index < |es| && OpensLevel(es[index])
    requires UniqueIds(es) && FreshBelow(es, nodes, index + 1)
    requires var q := Seek(es, index - 1, 0);
      && inner.index == (if q < 0 then -1 else q - 1)
      && |inner.nodes| == |nodes| + (index - 1 - inner.index)
      && (forall k :: k in nodes ==> k in inner.nodes && inner.nodes[k] == nodes[k])
      && (forall p :: inner.index < p <= index - 1 ==> es[p].id in inner.nodes)
      && (forall p :: 0 <= p < |es| && (p <= inner.index || index - 1 < p) && es[p].id !in nodes ==> es[p].id !in inner.nodes)
    requires node.id == es[index].id
    requires s == Step(node, inner.nodes[node.id := node], index - 1 - (|inner.nodes| - |nodes|))
    ensures && (forall k :: k in nodes ==> k in s.nodes && s.nodes[k] == nodes[k])
      && (forall p :: s.resume < p <= index ==> es[p].id in s.nodes)
      && (forall p :: 0 <= p < |es| && (p <= s.resume || index < p) && es[p].id !in nodes ==> es[p].id !in s.nodes)
  {
    var e := es[index];
    assert s.resume == inner.index;
    assert e.id !in nodes;
    forall p | 0 <= p < |es| && (p <= s.resume || index < p) && es[p].id !in nodes
      ensures es[p].id !in s.nodes
    {
      if p != index {
        assert es[p].id != e.id;
      }
    }
  }

  /**
   * For distinct ids, a level stops just below the GROUPEND that closes it
   * (or after position 0), and the map gains one entry per position the
   * level consumed, overwriting none: each position is visited once.
   */
  lemma {:induction false} LevelExact(es: seq<Element>, parent: Option<int>, index: int, depth: int,
                                      nodes: map<int, SceneTreeNode>, roots: seq<SceneTreeNode>, visited: seq<int>)
    requires -1 <= index < |es|
    requires UniqueIds(es) && PlainEnds(es) && FreshBelow(es, nodes, index + 1)
    ensures var r := Level(es, parent, index, depth, nodes, roots, visited);
      var q := Seek(es, index, 0);
      && r.index == (if q < 0 then -1 else q - 1)
      && |r.nodes| == |nodes| + (index - r.index)
      && (forall k :: k in nodes ==> k in r.nodes && r.nodes[k] == nodes[k])
      && (forall p :: r.index < p <= index ==> es[p].id in r.nodes)
      && (forall p :: 0 <= p < |es| && (p <= r.index || index < p) && es[p].id !in nodes ==> es[p].id !in r.nodes)
    decreases index + 1, 3
  {
    if index >= 0 {
      var s := StepAt(es, parent, index, depth, nodes);
      StepExact(es, parent, index, depth, nodes);
      if es[index].kind == GroupEnd {
        assert Seek(es, index, 0) == index;
        assert Level(es, parent, index, depth, nodes, roots, visited) == ScanResult(roots + [s.node], s.nodes, s.resume, visited + [index]);
      } else {
        LevelExactNext(es, parent, index, depth, nodes, roots, visited);
      }
    }
  }

  /** The part of LevelExact after a position that is not a GROUPEND: the level goes on where the step resumes. */
  lemma {:induction false} LevelExactNext(es: seq<Element>, parent: Option<int>, index: int, depth: int,
                                          nodes: map<int, SceneTreeNode>, roots: seq<SceneTreeNode>, visited: seq<int>)
    requires 0 <= index < |es| && es[index].kind != GroupEnd
    requires UniqueIds(es) && PlainEnds(es) && FreshBelow(es, nodes, index + 1)
    ensures var s := StepAt(es, parent, index, depth, nodes);
      var r := Level(es, parent, s.resume, depth, s.nodes, roots + [s.node], visited + [index]);
      var q := Seek(es, index, 0);
      && r.index == (if q < 0 then -1 else q - 1)
      && |r.nodes| == |nodes| + (index - r.index)
      && (forall k :: k in nodes ==> k in r.nodes && r.nodes[k] == nodes[k])
      && (forall p :: r.index < p <= index ==> es[p].id in r.nodes)
      && (forall p :: 0 <= p < |es| && (p <= r.index || index < p) && es[p].id !in nodes ==> es[p].id !in r.nodes)
    decreases index + 1, 2
  {
    var s := StepAt(es, parent, index, depth, nodes);
    StepExact(es, parent, index, depth, nodes);
    LevelExact(es, parent, s.resume, depth, s.nodes, roots + [s.node], visited + [index]);
    var r := Level(es, parent, s.resume, depth, s.nodes, roots + [s.node], visited + [index]);
    SeekStep(es, index);
    forall p | r.index < p <= index ensures es[p].id in r.nodes {
      if p > s.resume { assert es[p].id in s.nodes; }
    }
  }

  /** The depth change one element makes when the scan passes it: +1 opens a level, -1 closes one. */
  function Delta(e: Element): int {
    if e.kind == GroupEnd then -1 else if OpensLevel(e) then 1 else 0
  }

  /** The net number of levels a run of elements opens. */
  function Weight(s: seq<Element>): int {
    if s == [] then 0 else Weight(s[..|s| - 1]) + Delta(s[|s| - 1])
  }

  /**
   * Well-bracketed input: scanning from the end, no GROUPEND ever closes
   * more levels than have been opened, and no GROUPEND is flagged as a parent.
   */
  predicate Balanced(es: seq<Element>) {
    PlainEnds(es) && forall p :: 0 <= p <= |es| ==> Weight(es[p..]) >= 0
  }

  /** The weight of the run of positions [p, q). */
  function RunWeight(es: seq<Element>, p: int, q: int): int
    requires 0 <= p <= q <= |es|
  {
    Weight(es[p..q])
  }

  /** If no run below `top` closes more than the d open levels, no GROUPEND closes the current level. */
  lemma {:induction false} SeekNone(es: seq<Element>, top: int, d: nat)
    requires 0 <= top <= |es|
    requires forall p :: 0 <= p <= top ==> d + RunWeight(es, p, top) >= 0
    ensures Seek(es, top - 1, d) == -1
    decreases top
  {
    if top > 0 {
      var i := top - 1;
      forall p | 0 <= p <= i ensures RunWeight(es, p, i) == RunWeight(es, p, top) - Delta(es[i]) {
        assert es[p..top][..i - p] == es[p..i];
      }
      assert RunWeight(es, i, top) == Delta(es[i]) by {
        assert es[i..top][..0] == [];
      }
      assert RunWeight(es, i, i) == 0;
      var d' := d + Delta(es[i]);
      SeekNone(es, i, d');
    }
  }

  /**
   * For well-bracketed input with distinct ids the top-level scan runs to
   * position 0, and the node map holds one entry per element.
   */
  lemma BuildComplete(es: seq<Element>)
    requires UniqueIds(es) && Balanced(es)
    ensures Build(es).index == -1
    ensures |Build(es).nodes| == |es|
    ensures forall p :: 0 <= p < |es| ==> es[p].id in Build(es).nodes
  {
    forall p | 0 <= p <= |es| ensures 0 + RunWeight(es, p, |es|) >= 0 {
      assert es[p..|es|] == es[p..];
    }
    SeekNone(es, |es|, 0);
    LevelExact(es, None, |es| - 1, 0, map[], [], []);
  }

  /** The top-level call makes root nodes with no parent and depth 0, one per position it visits. */
  lemma BuildRoots(es: seq<Element>)
    ensures var r := Build(es);
      forall k :: 0 <= k < |r.roots| ==> r.roots[k].parent == None && r.roots[k].depth == 0 && Linked(r.roots[k])
  {
    LevelPrefix(es, None, |es| - 1, 0, map[], [], []);
    LevelNodes(es, None, |es| - 1, 0, map[], [], []);
    LevelLinked(es, None, |es| - 1, 0, map[], [], []);
  }

  /** Some element at a position in [0, index] has id k. */
  predicate IdAtOrBelow(es: seq<Element>, k: int, index: int)
    requires index < |es|
  {
    exists p :: 0 <= p <= index && es[p].id == k
  }

  /** Every key a level adds is the id of an element at or below its start position. */
  lemma {:induction false} LevelKeysFrom(es: seq<Element>, parent: Option<int>, index: int, depth: int,
                                         nodes: map<int, SceneTreeNode>, roots: seq<SceneTreeNode>, visited: seq<int>)
    requires index < |es|
    ensures var r := Level(es, parent, index, depth, nodes, roots, visited);
      forall k :: k in r.nodes ==> k in nodes || IdAtOrBelow(es, k, index)
    decreases if index < 0 then 0 else index + 1, 1
  {
    if index >= 0 {
      var s := StepAt(es, parent, index, depth, nodes);
      StepKeysFrom(es, parent, index, depth, nodes);
      if es[index].kind != GroupEnd {
        LevelKeysFrom(es, parent, s.resume, depth, s.nodes, roots + [s.node], visited + [index]);
        var r := Level(es, parent, s.resume, depth, s.nodes, roots + [s.node], visited + [index]);
        forall k | k in r.nodes ensures k in nodes || IdAtOrBelow(es, k, index) {
          if k !in s.nodes {
            var p :| 0 <= p <= s.resume && es[p].id == k;
          }
        }
      }
    }
  }

  lemma {:induction false} StepKeysFrom(es: seq<Element>, parent: Option<int>, index: int, depth: int,
                                        nodes: map<int, SceneTreeNode>)
    requires 0 <= index < |es|
    ensures var s := StepAt(es, parent, index, depth, nodes);
      forall k :: k in s.nodes ==> k in nodes || IdAtOrBelow(es, k, index)
    decreases index + 1, 0
  {
    var e := es[index];
    if OpensLevel(e) {
      LevelKeysFrom(es, Some(e.id), index - 1, depth + 1, nodes, [], []);
      var inner := Level(es, Some(e.id), index - 1, depth + 1, nodes, [], []);
      forall k | k in inner.nodes && k !in nodes ensures IdAtOrBelow(es, k, index) {
        var p :| 0 <= p <= index - 1 && es[p].id == k;
      }
    }
  }

  /**
   * A node's parent link is sound: a root has depth 0, and a child sits one
   * level below its parent, which is either in the map already or still
   * being scanned (`pending` maps the ids of the open levels to their depths).
   */
  predicate ParentOk(nodes: map<int, SceneTreeNode>, pending: map<int, int>, n: SceneTreeNode) {
    match n.parent
    case None => n.depth == 0
    case Some(q) => (q in nodes && nodes[q].depth + 1 == n.depth) || (q in pending && pending[q] + 1 == n.depth)
  }

  /** The entry under k has a non-negative depth and a sound parent link. */
  predicate NodeOk(nodes: map<int, SceneTreeNode>, pending: map<int, int>, k: int)
    requires k in nodes
  {
    nodes[k].depth >= 0 && ParentOk(nodes, pending, nodes[k])
  }

  /** Every entry is sound; the trigger keeps the solver from chasing parent links on its own. */
  predicate DepthsOk(nodes: map<int, SceneTreeNode>, pending: map<int, int>) {
    forall k {:trigger NodeOk(nodes, pending, k)} :: k in nodes ==> NodeOk(nodes, pending, k)
  }

  /** The node map of a finished scan: every parent is in the map, exactly one level up. */
  predicate Consistent(nodes: map<int, SceneTreeNode>) {
    DepthsOk(nodes, map[])
  }

  lemma DepthsOkPending(nodes: map<int, SceneTreeNode>, pending: map<int, int>, q: int, d: int)
    requires DepthsOk(nodes, pending) && q !in pending
    ensures DepthsOk(nodes, pending[q := d])
  {
    forall k | k in nodes ensures NodeOk(nodes, pending[q := d], k) {
      assert NodeOk(nodes, pending, k);
    }
  }

  /** An element above a level's start that has no entry before the level has none after it. */
  lemma LevelFresh(es: seq<Element>, parent: Option<int>, index: int, depth: int,
                   nodes: map<int, SceneTreeNode>, p: int)
    requires -1 <= index < p < |es|
    requires UniqueIds(es) && PlainEnds(es) && FreshBelow(es, nodes, index + 1)
    requires es[p].id !in nodes
    ensures es[p].id !in Level(es, parent, index, depth, nodes, [], []).nodes
  {
    LevelExact(es, parent, index, depth, nodes, [], []);
  }

  /**
   * Storing a node whose level is the innermost open one closes that level:
   * nodes that pointed at it as pending now find it in the map.
   */
  lemma InsertNode(m: map<int, SceneTreeNode>, pending: map<int, int>, node: SceneTreeNode)
    requires node.id !in m && node.id !in pending
    requires DepthsOk(m, pending[node.id := node.depth])
    requires node.depth >= 0 && ParentOk(map[], pending, node)
    ensures DepthsOk(m[node.id := node], pending)
  {
    var m' := m[node.id := node];
    forall k | k in m' ensures NodeOk(m', pending, k) {
      if k != node.id {
        assert NodeOk(m, pending[node.id := node.depth], k);
      }
    }
  }

  /** The node made at one position keeps the map's parent links sound. */
  lemma {:induction false} StepDepths(es: seq<Element>, parent: Option<int>, index: int, depth: int,
                                      nodes: map<int, SceneTreeNode>, pending: map<int, int>)
    requires 0 <= index < |es|
    requires UniqueIds(es) && PlainEnds(es) && FreshBelow(es, nodes, index + 1)
    requires DepthsOk(nodes, pending) && depth >= 0
    requires parent.None? ==> depth == 0
    requires parent.Some? ==> parent.value in pending && pending[parent.value] + 1 == depth
    requires forall q :: q in pending ==> q !in nodes
    requires forall p :: 0 <= p <= index ==> es[p].id !in pending
    ensures DepthsOk(StepAt(es, parent, index, depth, nodes).nodes, pending)
    decreases index + 1, 1
  {
    var e := es[index];
    if OpensLevel(e) {
      var pending' := pending[e.id := depth];
      DepthsOkPending(nodes, pending, e.id, depth);
      forall p | 0 <= p <= index - 1 ensures es[p].id !in pending' {
        assert es[p].id != es[index].id;
      }
      forall q | q in pending' ensures q !in nodes {
        if q == e.id { assert es[index].id !in nodes; }
      }
      StepDepthsOpen(es, parent, index, depth, nodes, pending);
    } else {
      var node := SceneTreeNode(e.id, NoChildren, parent, depth);
      assert StepAt(es, parent, index, depth, nodes) == Step(node, nodes[e.id := node], index - 1);
      DepthsOkPending(nodes, pending, e.id, depth);
      InsertNode(nodes, pending, node);
    }
  }

  /** The node of a group: its level is scanned with the group pending, then the group is stored. */
  lemma {:induction false} StepDepthsOpen(es: seq<Element>, parent: Option<int>, index: int, depth: int,
                                          nodes: map<int, SceneTreeNode>, pending: map<int, int>)
    requires 0 <= index < |es| && OpensLevel(es[index])
    requires UniqueIds(es) && PlainEnds(es) && FreshBelow(es, nodes, index + 1)
    requires es[index].id !in pending && depth >= 0
    requires DepthsOk(nodes, pending[es[index].id := depth])
    requires parent.None? ==> depth == 0
    requires parent.Some? ==> parent.value in pending && pending[parent.value] + 1 == depth
    requires forall q :: q in pending[es[index].id := depth] ==> q !in nodes
    requires forall p :: 0 <= p <= index - 1 ==> es[p].id !in pending[es[index].id := depth]
    ensures DepthsOk(StepAt(es, parent, index, depth, nodes).nodes, pending)
    decreases index + 1, 0
  {
    var e := es[index];
    var inner := Level(es, Some(e.id), index - 1, depth + 1, nodes, [], []);
    FreshBelowLess(es, nodes, index, index + 1);
    LevelFresh(es, Some(e.id), index - 1, depth + 1, nodes, index);
    OpenLevelDepths(es, parent, index, depth, nodes, pending);
    var node := SceneTreeNode(e.id, ChildNodes(inner.roots), parent, depth);
    StepAtOpen(es, parent, index, depth, nodes);
    InsertNode(inner.nodes, pending, node);
  }

  /** The level below an element that opens one keeps the links sound, with the element pending. */
  lemma {:induction false} OpenLevelDepths(es: seq<Element>, parent: Option<int>, index: int, depth: int,
                                           nodes: map<int, SceneTreeNode>, pending: map<int, int>)
    requires 0 <= index < |es| && OpensLevel(es[index])
    requires UniqueIds(es) && PlainEnds(es) && FreshBelow(es, nodes, index + 1)
    requires es[index].id !in pending && depth >= 0
    requires DepthsOk(nodes, pending[es[index].id := depth])
    requires parent.None? ==> depth == 0
    requires parent.Some? ==> parent.value in pending && pending[parent.value] + 1 == depth
    requires forall q :: q in pending[es[index].id := depth] ==> q !in nodes
    requires forall p :: 0 <= p <= index - 1 ==> es[p].id !in pending[es[index].id := depth]
    ensures DepthsOk(Level(es, Some(es[index].id), index - 1, depth + 1, nodes, [], []).nodes, pending[es[index].id := depth])
    decreases index, 4
  {
    var e := es[index];
    FreshBelowLess(es, nodes, index, index + 1);
    LevelDepths(es, Some(e.id), index - 1, depth + 1, nodes, [], [], pending[e.id := depth]);
  }

  /** Fresh below a bound, fresh below any lower one. */
  lemma FreshBelowLess(es: seq<Element>, nodes: map<int, SceneTreeNode>, lo: int, hi: int)
    requires lo <= hi <= |es| && FreshBelow(es, nodes, hi)
    ensures FreshBelow(es, nodes, lo)
  {
  }

  /** A level keeps the map's parent links sound. */
  lemma {:induction false} LevelDepths(es: seq<Element>, parent: Option<int>, index: int, depth: int,
                                       nodes: map<int, SceneTreeNode>, roots: seq<SceneTreeNode>, visited: seq<int>,
                                       pending: map<int, int>)
    requires -1 <= index < |es|
    requires UniqueIds(es) && PlainEnds(es) && FreshBelow(es, nodes, index + 1)
    requires DepthsOk(nodes, pending) && depth >= 0
    requires parent.None? ==> depth == 0
    requires parent.Some? ==> parent.value in pending && pending[parent.value] + 1 == depth
    requires forall q :: q in pending ==> q !in nodes
    requires forall p :: 0 <= p <= index ==> es[p].id !in pending
    ensures var r := Level(es, parent, index, depth, nodes, roots, visited);
      DepthsOk(r.nodes, pending) && forall q :: q in pending ==> q !in r.nodes
    decreases index + 1, 2
  {
    if index >= 0 {
      var s := StepAt(es, parent, index, depth, nodes);
      StepDepths(es, parent, index, depth, nodes, pending);
      StepExact(es, parent, index, depth, nodes);
      StepKeysFrom(es, parent, index, depth, nodes);
      assert forall q :: q in pending ==> q !in s.nodes;
      if es[index].kind != GroupEnd {
        LevelDepths(es, parent, s.resume, depth, s.nodes, roots + [s.node], visited + [index], pending);
      }
    }
  }

  /** The map of a finished top-level scan has sound parent links when ids are distinct. */
  lemma BuildConsistent(es: seq<Element>)
    requires UniqueIds(es) && PlainEnds(es)
    ensures Consistent(Build(es).nodes)
  {
    LevelDepths(es, None, |es| - 1, 0, map[], [], [], map[]);
  }

  /** The node is the map's entry under its own id. */
  predicate Stored(nodes: map<int, SceneTreeNode>, n: SceneTreeNode) {
    n.id in nodes && nodes[n.id] == n
  }

  /** Every entry is keyed by its own id, is linked to its children, and those children are the map's entries. */
  predicate ChildrenStored(nodes: map<int, SceneTreeNode>) {
    forall k :: k in nodes ==>
      nodes[k].id == k && Linked(nodes[k]) &&
      (nodes[k].children.ChildNodes? ==>
        forall i :: 0 <= i < |nodes[k].children.nodes| ==> Stored(nodes, nodes[k].children.nodes[i]))
  }

  /** Storing a node under a fresh id whose children are stored keeps every child list stored. */
  lemma StoreNode(m: map<int, SceneTreeNode>, node: SceneTreeNode)
    requires ChildrenStored(m) && node.id !in m && Linked(node)
    requires node.children.ChildNodes? ==> forall i :: 0 <= i < |node.children.nodes| ==> Stored(m, node.children.nodes[i])
    ensures ChildrenStored(m[node.id := node])
    ensures forall x :: Stored(m, x) ==> Stored(m[node.id := node], x)
  {
    var m' := m[node.id := node];
    forall x | Stored(m, x) ensures Stored(m', x) {
      assert x.id != node.id;
    }
  }

  /** One position of the scan keeps child lists stored, and stores its node. */
  lemma {:induction false} StepStored(es: seq<Element>, parent: Option<int>, index: int, depth: int,
                                      nodes: map<int, SceneTreeNode>)
    requires 0 <= index < |es|
    requires UniqueIds(es) && PlainEnds(es) && FreshBelow(es, nodes, index + 1)
    requires ChildrenStored(nodes)
    ensures var s := StepAt(es, parent, index, depth, nodes);
      ChildrenStored(s.nodes) && forall x :: Stored(nodes, x) ==> Stored(s.nodes, x)
    decreases index + 1, 0
  {
    var e := es[index];
    StepLinked(es, parent, index, depth, nodes);
    if OpensLevel(e) {
      var inner := Level(es, Some(e.id), index - 1, depth + 1, nodes, [], []);
      LevelFresh(es, Some(e.id), index - 1, depth + 1, nodes, index);
      LevelStored(es, Some(e.id), index - 1, depth + 1, nodes, [], []);
      var node := SceneTreeNode(e.id, ChildNodes(inner.roots), parent, depth);
      assert StepAt(es, parent, index, depth, nodes) == Step(node, inner.nodes[e.id := node], index - 1 - (|inner.nodes| - |nodes|));
      StoreNode(inner.nodes, node);
    } else {
      var node := SceneTreeNode(e.id, NoChildren, parent, depth);
      assert StepAt(es, parent, index, depth, nodes) == Step(node, nodes[e.id := node], index - 1);
      StoreNode(nodes, node);
    }
  }

  /** A level keeps child lists stored, and every node of the level is stored. */
  lemma {:induction false} LevelStored(es: seq<Element>, parent: Option<int>, index: int, depth: int,
                                       nodes: map<int, SceneTreeNode>, roots: seq<SceneTreeNode>, visited: seq<int>)
    requires -1 <= index < |es|
    requires UniqueIds(es) && PlainEnds(es) && FreshBelow(es, nodes, index + 1)
    requires ChildrenStored(nodes)
    requires forall i :: 0 <= i < |roots| ==> Stored(nodes, roots[i])
    ensures var r := Level(es, parent, index, depth, nodes, roots, visited);
      && ChildrenStored(r.nodes)
      && (forall i :: 0 <= i < |r.roots| ==> Stored(r.nodes, r.roots[i]))
      && (forall x :: Stored(nodes, x) ==> Stored(r.nodes, x))
    decreases index + 1, 1
  {
    if index >= 0 {
      var s := StepAt(es, parent, index, depth, nodes);
      StepStored(es, parent, index, depth, nodes);
      StepExact(es, parent, index, depth, nodes);
      var roots' := roots + [s.node];
      assert forall i :: 0 <= i < |roots'| ==> Stored(s.nodes, roots'[i]) by {
        forall i | 0 <= i < |roots'| ensures Stored(s.nodes, roots'[i]) {
          if i < |roots| { assert Stored(nodes, roots[i]); }
        }
      }
      if es[index].kind != GroupEnd {
        LevelStored(es, parent, s.resume, depth, s.nodes, roots', visited + [index]);
      }
    }
  }

  /** In the map of a top-level scan, every node's children are stored, and so is every root. */
  lemma BuildStored(es: seq<Element>)
    requires UniqueIds(es) && PlainEnds(es)
    ensures ChildrenStored(Build(es).nodes)
    ensures forall i :: 0 <= i < |Build(es).roots| ==> Stored(Build(es).nodes, Build(es).roots[i])
  {
    LevelStored(es, None, |es| - 1, 0, map[], [], []);
  }
}
