/**
 * The scene-tree builder: the flat, index-ordered element list is scanned
 * from its last position down to position 0. An element that opens a level
 * (a GROUP, or any element flagged as a parent) takes the elements below it
 * as its children until the level's GROUPEND; the GROUPEND is the level's
 * last child. Nodes are keyed by element id in one map shared by every level.
 */
module SceneTree {
  import opened Common
  import opened ElementModel

  /** A node of the derived tree. */
  datatype SceneTreeNode = SceneTreeNode(
    id: int,
    children: ChildList,
    parent: Option<int>,
    depth: int)

  /** A node's children: NoChildren (null in the source) for an element that opens no level. */
  datatype ChildList = NoChildren | ChildNodes(nodes: seq<SceneTreeNode>)

  /**
   * What one level of the scan yields: the level's nodes in the order they
   * were made, the shared node map afterwards, the scan's own position when
   * the level stopped, and (for the proofs) the positions the level visited.
   */
  datatype ScanResult = ScanResult(
    roots: seq<SceneTreeNode>,
    nodes: map<int, SceneTreeNode>,
    index: int,
    visited: seq<int>)

  /** What one position of the scan yields: its node, the node map afterwards and where the level resumes. */
  datatype Step = Step(node: SceneTreeNode, nodes: map<int, SceneTreeNode>, resume: int)

  /**
   * One level of the scan, written as the loop it is in the source: `roots`
   * and `visited` are the level's accumulators. The level stops before
   * position 0 or right after the node of a GROUPEND.
   */
  function Level(es: seq<Element>, parent: Option<int>, index: int, depth: int,
                 nodes: map<int, SceneTreeNode>, roots: seq<SceneTreeNode>, visited: seq<int>): (r: ScanResult)
    requires index < |es|
    ensures nodes.Keys <= r.nodes.Keys
    ensures |nodes| <= |r.nodes|
    ensures index >= 0 ==> r.index < index
    decreases if index < 0 then 0 else index + 1, 1
  {
    if index < 0 then ScanResult(roots, nodes, index, visited)
    else
      var s := StepAt(es, parent, index, depth, nodes);
      if es[index].kind == GroupEnd then ScanResult(roots + [s.node], s.nodes, s.resume, visited + [index])
      else Level(es, parent, s.resume, depth, s.nodes, roots + [s.node], visited + [index])
  }

  /**
   * The body of the loop at position `index`: an element that opens a level
   * first scans the level below it; the caller then skips as many positions
   * as that level added entries to the map, and stores the element's node
   * under the element's id.
   */
  function StepAt(es: seq<Element>, parent: Option<int>, index: int, depth: int,
                  nodes: map<int, SceneTreeNode>): (r: Step)
    requires 0 <= index < |es|
    ensures nodes.Keys <= r.nodes.Keys
    ensures |nodes| <= |r.nodes|
    ensures r.resume < index
    ensures r.node.id == es[index].id && r.node.parent == parent && r.node.depth == depth
    ensures r.node.id in r.nodes && r.nodes[r.node.id] == r.node
    decreases index + 1, 0
  {
    var e := es[index];
    var next := index - 1;
    if OpensLevel(e) then
      var inner := Level(es, Some(e.id), next, depth + 1, nodes, [], []);
      var node := SceneTreeNode(e.id, ChildNodes(inner.roots), parent, depth);
      Step(node, inner.nodes[e.id := node], next - (|inner.nodes| - |nodes|))
    else
      var node := SceneTreeNode(e.id, NoChildren, parent, depth);
      Step(node, nodes[e.id := node], next)
  }

  /** The top-level scan: no parent, depth 0, from the last position down. */
  function Build(es: seq<Element>): (r: ScanResult)
    ensures |es| > 0 ==> r.index < |es| - 1
  {
    Level(es, None, |es| - 1, 0, map[], [], [])
  }

  /** The builder's shared state: the elements it reads and the node map it fills. */
  class SceneTreeBuilder {
    const elements: seq<Element>
    var nodes: map<int, SceneTreeNode>

    constructor (es: seq<Element>)
      ensures elements == es && nodes == map[]
    {
      elements := es;
      nodes := map[];
    }

    /** One level of the scan; it adds this level's nodes and those of every level below it to `nodes`. */
    method MakeSceneTreeNodes(parent: Option<int>, start: int, depth: int) returns (roots: seq<SceneTreeNode>)
      requires start < |elements|
      modifies this
      ensures var r := Level(elements, parent, start, depth, old(nodes), [], []);
        roots == r.roots && nodes == r.nodes
      decreases if start < 0 then 0 else start + 1
    {
      roots := [];
      ghost var visited: seq<int> := [];
      var index := start;
      while index >= 0
        invariant index <= start < |elements|
        invariant Level(elements, parent, index, depth, nodes, roots, visited)
               == Level(elements, parent, start, depth, old(nodes), [], [])
        decreases if index < 0 then 0 else index + 1
      {
        ghost var before := nodes;
        ghost var at := index;
        var element := elements[index];
        index := index - 1;
        var children: ChildList;
        if OpensLevel(element) {
          var previousSize := |nodes|;
          var inner := MakeSceneTreeNodes(Some(element.id), index, depth + 1);
          children := ChildNodes(inner);
          index := index - (|nodes| - previousSize);
        } else {
          children := NoChildren;
        }
        var node := SceneTreeNode(element.id, children, parent, depth);
        nodes := nodes[element.id := node];
        assert StepAt(elements, parent, at, depth, before) == Step(node, nodes, index);
        ghost var level := Level(elements, parent, at, depth, before, roots, visited);
        roots := roots + [node];
        visited := visited + [at];
        if element.kind == GroupEnd {
          assert level == ScanResult(roots, nodes, index, visited);
          break;
        }
        assert level == Level(elements, parent, index, depth, nodes, roots, visited);
      }
    }
  }

  /** The builder's entry point: the top-level call has no parent and depth 0. */
  method FromElements(es: seq<Element>) returns (roots: seq<SceneTreeNode>, nodes: map<int, SceneTreeNode>)
    ensures roots == Build(es).roots && nodes == Build(es).nodes
  {
    var builder := new SceneTreeBuilder(es);
    roots := builder.MakeSceneTreeNodes(None, |es| - 1, 0);
    nodes := builder.nodes;
  }
}
