/**
 * The layer panel's drag-and-drop rules: whether a cursor position is over
 * a layer's row, whether a drop there goes above or below it, whether the
 * dragged layers may be dropped there, which layers a drag moves, and the
 * index a finished drop reorders to.
 *
 * Rows are given by their client rectangles, in whole pixels; the
 * document's structure is a valid ElementStructure that stays fixed for
 * the length of a drag.
 */
module LayersPanel {
  import opened Common
  import opened ElementModel
  import opened ElementStructure
  import opened DragAndDrop

  /** The deepest nesting the host allows. */
  const MaxNestDepth := 10

  /** A row's client rectangle. */
  datatype Rect = Rect(top: int, left: int, bottom: int, right: int) {
    function Height(): int { bottom - top }
  }

  /** A query's missing answer (null) counts as 0 in the arithmetic the rules do. */
  function OrZero(o: Option<int>): (r: int)
    ensures o.Some? ==> r == o.value
    ensures o.None? ==> r == 0
  {
    if o.Some? then o.value else 0
  }

  // ----- geometry -----

  /**
   * The hit test as written: its last comparison is of the point's y
   * against the right edge, so the point's x is bounded only on the left.
   */
  function InsideAsWritten(b: Rect, p: Point): (r: bool)
    ensures r <==> b.top <= p.y <= b.bottom && b.left <= p.x && p.y <= b.right
  {
    !(p.y < b.top || p.y > b.bottom || p.x < b.left || p.y > b.right)
  }

  /** The hit test as intended: the point lies within the rectangle, edges included. */
  function Inside(b: Rect, p: Point): (r: bool)
    ensures r <==> b.top <= p.y <= b.bottom && b.left <= p.x <= b.right
  {
    !(p.y < b.top || p.y > b.bottom || p.x < b.left || p.x > b.right)
  }

  /**
   * A drop goes above the row when half the height is less than the
   * distance to the bottom: exactly when the point is above the row's
   * middle line.
   */
  function DropAbove(b: Rect, p: Point): (r: bool)
    ensures r <==> 2 * p.y < b.top + b.bottom
  {
    b.Height() < 2 * (b.bottom - p.y)
  }

  /**
   * Rows of a panel 300 pixels wide: as written a point right of the row
   * at the height of the first rows counts as over it, and a point over a
   * row lower than the panel is wide does not.
   */
  lemma InsideFinding()
    ensures var first, low := Rect(0, 0, 20, 300), Rect(400, 0, 420, 300);
      && InsideAsWritten(first, Point(500, 10)) && !Inside(first, Point(500, 10))
      && !InsideAsWritten(low, Point(100, 410)) && Inside(low, Point(100, 410))
  {
  }

  // ----- the validity rules -----

  /**
   * The layer's tree depth below itself, plus the target's depth, plus one
   * for a drop below it. It is never less than where the layer itself would
   * land, and a layer outside the tree counts as a leaf.
   */
  function NestDepth(s: Structure, layer: Element, target: Element, above: bool): (r: int)
    requires Valid(s)
    ensures r >= OrZero(Depth(s, target)) + (if above then 0 else 1)
    ensures Depth(s, layer).None? ==> r == OrZero(Depth(s, target)) + (if above then 0 else 1)
  {
    assert layer.id in Nodes(s) ==> MaxDescendantDepth(s, layer).value >= Depth(s, layer).value by {
      if layer.id in Nodes(s) {
        MaxDescendantDepthBounds(s, layer);
      }
    }
    (OrZero(MaxDescendantDepth(s, layer)) - OrZero(Depth(s, layer))) + OrZero(Depth(s, target)) + (if above then 0 else 1)
  }

  /** Artboards cannot nest in anything, so a drag that holds one may not go deeper than 1. */
  function NestLimit(dragged: seq<Element>): (r: int)
    ensures (exists i :: 0 <= i < |dragged| && dragged[i].isArtboard) ==> r == 1
    ensures (forall i :: 0 <= i < |dragged| ==> !dragged[i].isArtboard) ==> r == MaxNestDepth
  {
    if exists i :: 0 <= i < |dragged| && dragged[i].isArtboard then 1 else MaxNestDepth
  }

  /**
   * Some layer of the list, scanned from the front, has a depth over the
   * limit: the scan finds one exactly when there is one.
   */
  function AnyOver(layers: seq<Element>, depthOf: Element -> int, limit: int): (r: bool)
    ensures r <==> exists i :: 0 <= i < |layers| && depthOf(layers[i]) > limit
  {
    |layers| > 0 &&
      var init := layers[..|layers| - 1];
      assert forall i :: 0 <= i < |init| ==> init[i] == layers[i];
      AnyOver(init, depthOf, limit) || depthOf(layers[|layers| - 1]) > limit
  }

  /** The nesting depth each layer would reach if dropped at the target. */
  function NestDepths(s: Structure, target: Element, above: bool): Element -> int
    requires Valid(s)
  {
    (l: Element) => NestDepth(s, l, target, above)
  }

  /** Some dragged layer would end up nested deeper than the limit. */
  function NestLimitExceeded(s: Structure, target: Element, dragged: seq<Element>, above: bool): (r: bool)
    requires Valid(s)
    ensures r <==> exists i :: 0 <= i < |dragged| && NestDepth(s, dragged[i], target, above) > NestLimit(dragged)
  {
    AnyOver(dragged, NestDepths(s, target, above), NestLimit(dragged))
  }

  /**
   * A layer the drop may not pass through: the target itself, or a group
   * end dropped above the row just below it (a group dragged below itself).
   */
  function Blocks(s: Structure, x: Element, target: Element, above: bool): (r: bool)
    ensures x == target ==> r
    ensures r && x != target ==> x.kind == GroupEnd && above
  {
    x == target || (x.kind == GroupEnd && above && OrZero(IndexOf(s, x)) - OrZero(IndexOf(s, target)) == 1)
  }

  /**
   * Some dragged layer, or a descendant of one, blocks the drop. A drag
   * that holds the target itself always contains it; an empty drag never
   * contains anything.
   */
  function Contains(s: Structure, target: Element, dragged: seq<Element>, above: bool): (r: bool)
    requires Valid(s)
    ensures target in dragged ==> r
    ensures dragged == [] ==> !r
  {
    assert target in dragged ==> target in DescendantsOfEach(s, dragged) by {
      if target in dragged {
        DescendsFromMember(s, dragged, target);
        var ds := Descendants(s, target);
        assert ds[|ds| - 1] == target;
      }
    }
    exists x :: x in DescendantsOfEach(s, dragged) && Blocks(s, x, target, above)
  }

  /**
   * Whether the dragged layers may be dropped above or below a target that
   * is under the cursor: not below the background, not past the nesting
   * limit, and not into themselves.
   */
  function CompatibleDropAllowed(s: Structure, target: Element, dragged: seq<Element>, above: bool): (r: bool)
    requires Valid(s)
    ensures r ==> !(target.isBackground && !above) && target !in dragged
  {
    && !(target.isBackground && !above)
    && !NestLimitExceeded(s, target, dragged, above)
    && !Contains(s, target, dragged, above)
  }

  /** An element lies among the descendants of a list exactly when it descends from a member of the list. */
  lemma DescendsFromMember(s: Structure, cs: seq<Element>, x: Element)
    requires Valid(s)
    ensures x in DescendantsOfEach(s, cs) <==> exists c :: c in cs && x in Descendants(s, c)
  {
    DescendantsOfEachMember(s, cs, x);
    if exists c :: c in cs && x in Descendants(s, c) {
      var c :| c in cs && x in Descendants(s, c);
      var i :| 0 <= i < |cs| && cs[i] == c;
    }
  }

  /** The descendants of a concatenation are those of its parts. */
  lemma {:induction false} DescendantsOfEachConcat(s: Structure, a: seq<Element>, b: seq<Element>)
    requires Valid(s)
    ensures DescendantsOfEach(s, a + b) == DescendantsOfEach(s, a) + DescendantsOfEach(s, b)
  {
    if a == [] {
      assert a + b == b;
    } else {
      var d0, rest, tail := Descendants(s, a[0]), DescendantsOfEach(s, a[1..]), DescendantsOfEach(s, b);
      ConcatTail(a, b);
      assert DescendantsOfEach(s, a + b) == d0 + DescendantsOfEach(s, a[1..] + b);
      assert DescendantsOfEach(s, a) == d0 + rest;
      DescendantsOfEachConcat(s, a[1..], b);
      ConcatAssoc(d0, rest, tail);
    }
  }

  /** Reversing a list does not change how many descendants it has. */
  lemma {:induction false} DescendantsOfEachReverse(s: Structure, cs: seq<Element>)
    requires Valid(s)
    ensures |DescendantsOfEach(s, Reverse(cs))| == |DescendantsOfEach(s, cs)|
  {
    if cs != [] {
      DescendantsOfEachReverse(s, cs[1..]);
      DescendantsOfEachConcat(s, Reverse(cs[1..]), [cs[0]]);
      assert [cs[0]][1..] == [];
    }
  }

  /**
   * One step of the worklist: taking the first layer off and queueing its
   * children leaves one descendant fewer to visit, and the same blocking
   * layers except possibly the one taken off.
   */
  lemma WorklistStep(s: Structure, w: Element, rest: seq<Element>, target: Element, above: bool)
    requires Valid(s)
    ensures |DescendantsOfEach(s, rest + Children(s, w))| + 1 == |DescendantsOfEach(s, [w] + rest)|
    ensures Contains(s, target, [w] + rest, above) <==>
      Blocks(s, w, target, above) || Contains(s, target, rest + Children(s, w), above)
  {
    var cs := Children(s, w);
    DescendantsOfEachCons(s, w, rest);
    DescendantsOfEachConcat(s, rest, cs);
    StrictDescendantsOfChildren(s, w);
    DescendantsOfEachReverse(s, cs);
    var before := DescendantsOfEach(s, [w] + rest);
    var after := DescendantsOfEach(s, rest + cs);
    assert before == StrictDescendants(s, w) + [w] + DescendantsOfEach(s, rest);
    forall x ensures x in before <==> x == w || x in after {
      DescendsFromMember(s, Reverse(cs), x);
      DescendsFromMember(s, cs, x);
      if exists c :: c in Reverse(cs) && x in Descendants(s, c) {
        var c :| c in Reverse(cs) && x in Descendants(s, c);
        ReverseMembership(cs, c);
      }
      if exists c :: c in cs && x in Descendants(s, c) {
        var c :| c in cs && x in Descendants(s, c);
        ReverseMembership(cs, c);
      }
    }
  }

  /** The worklist step stated on the list itself. */
  lemma WorklistAdvance(s: Structure, ws: seq<Element>, target: Element, above: bool)
    requires Valid(s) && ws != []
    ensures |DescendantsOfEach(s, ws[1..] + Children(s, ws[0]))| < |DescendantsOfEach(s, ws)|
    ensures Contains(s, target, ws, above) <==>
      Blocks(s, ws[0], target, above) || Contains(s, target, ws[1..] + Children(s, ws[0]), above)
  {
    WorklistStep(s, ws[0], ws[1..], target, above);
    assert [ws[0]] + ws[1..] == ws;
  }

  /** A scan of the layers that stops at the first one whose depth is over the limit. */
  method ScanOver(layers: seq<Element>, depthOf: Element -> int, limit: int) returns (over: bool)
    ensures over == AnyOver(layers, depthOf, limit)
  {
    over := false;
    var j := 0;
    while j < |layers| && !over
      invariant 0 <= j <= |layers|
      invariant over == AnyOver(layers[..j], depthOf, limit)
    {
      assert layers[..j + 1][..j] == layers[..j];
      over := depthOf(layers[j]) > limit;
      j := j + 1;
    }
    if over {
      AnyOverPrefix(layers, j, depthOf, limit);
    } else {
      assert layers[..j] == layers;
    }
  }

  /** The nesting check as the panel runs it: the limit for the drag, then a scan of the dragged layers. */
  method NestLimitCheck(s: Structure, target: Element, dragged: seq<Element>, above: bool) returns (exceeded: bool)
    requires Valid(s)
    ensures exceeded == NestLimitExceeded(s, target, dragged, above)
  {
    var draggingArtboard := exists i :: 0 <= i < |dragged| && dragged[i].isArtboard;
    var maxDepth := if draggingArtboard then 1 else MaxNestDepth;
    exceeded := ScanOver(dragged, NestDepths(s, target, above), maxDepth);
  }

  /** A layer over the limit in a prefix of the list is one in the list. */
  lemma AnyOverPrefix(layers: seq<Element>, j: nat, depthOf: Element -> int, limit: int)
    requires j <= |layers| && AnyOver(layers[..j], depthOf, limit)
    ensures AnyOver(layers, depthOf, limit)
  {
    var i :| 0 <= i < j && depthOf(layers[..j][i]) > limit;
    assert layers[i] == layers[..j][i];
  }

  /**
   * The containment check as the panel runs it: a worklist that takes
   * layers off the front and queues their children, stopping at the first
   * one that blocks.
   */
  method ContainsCheck(s: Structure, target: Element, dragged: seq<Element>, above: bool) returns (contained: bool)
    requires Valid(s)
    ensures contained == Contains(s, target, dragged, above)
  {
    var ws := dragged;
    ghost var goal := Contains(s, target, dragged, above);
    while ws != []
      invariant Contains(s, target, ws, above) == goal
      decreases |DescendantsOfEach(s, ws)|
    {
      WorklistAdvance(s, ws, target, above);
      if Blocks(s, ws[0], target, above) {
        return true;
      }
      ws := ws[1..] + Children(s, ws[0]);
    }
    contained := false;
  }

  /** The rule as the panel runs it: the background check, then the nesting check, then the containment check. */
  method ValidCompatibleDropTargetHelper(s: Structure, target: Element, dragged: seq<Element>, above: bool) returns (valid: bool)
    requires Valid(s)
    ensures valid == CompatibleDropAllowed(s, target, dragged, above)
  {
    if target.isBackground && !above {
      return false;
    }
    var exceeded := NestLimitCheck(s, target, dragged, above);
    if exceeded {
      return false;
    }
    var contained := ContainsCheck(s, target, dragged, above);
    valid := !contained;
  }

  /** What the panel answers for a row under a point, by the given hit test. */
  function Answer(s: Structure, target: Element, b: Rect, dragged: seq<Element>, p: Point, inside: bool): (r: Validation)
    requires Valid(s)
    ensures !inside ==> r == Validation(false, false)
    ensures inside ==> r.compatible && (r.valid <==> CompatibleDropAllowed(s, target, dragged, DropAbove(b, p)))
  {
    if !inside then Validation(false, false)
    else Validation(true, CompatibleDropAllowed(s, target, dragged, DropAbove(b, p)))
  }

  /** _validDropTarget as written. */
  function ValidDropTargetAsWritten(s: Structure, target: Element, b: Rect, dragged: seq<Element>, p: Point): (r: Validation)
    requires Valid(s)
    ensures r.compatible <==> InsideAsWritten(b, p)
    ensures r.valid <==> r.compatible && CompatibleDropAllowed(s, target, dragged, DropAbove(b, p))
  {
    Answer(s, target, b, dragged, p, InsideAsWritten(b, p))
  }

  /** _validDropTarget with the intended hit test: a row answers compatible exactly when the point is within it. */
  function ValidDropTarget(s: Structure, target: Element, b: Rect, dragged: seq<Element>, p: Point): (r: Validation)
    requires Valid(s)
    ensures r.compatible <==> b.top <= p.y <= b.bottom && b.left <= p.x <= b.right
    ensures r.valid <==> r.compatible && CompatibleDropAllowed(s, target, dragged, DropAbove(b, p))
  {
    Answer(s, target, b, dragged, p, Inside(b, p))
  }

  /** A drag holding an artboard is refused as soon as a dragged layer would sit below the top level. */
  lemma ArtboardDepth(s: Structure, target: Element, dragged: seq<Element>, above: bool, i: nat)
    requires Valid(s) && i < |dragged| && dragged[i].isArtboard
    requires NestDepth(s, dragged[i], target, above) > 1
    ensures !CompatibleDropAllowed(s, target, dragged, above)
  {
    assert NestDepths(s, target, above)(dragged[i]) > NestLimit(dragged);
  }

  // ----- the per-drag cache -----

  /**
   * The rules state of one drag: the document and the dragged layers, and
   * the answers already computed for each target, above and below.
   */
  class DropRules {
    const doc: Structure
    const dragged: seq<Element>
    var aboveCache: map<Element, bool>
    var belowCache: map<Element, bool>

    /** Every cached answer is the rule's answer for its target. */
    ghost predicate Sound()
      reads this
    {
      && ElementStructure.Valid(doc)
      && (forall t :: t in aboveCache ==> aboveCache[t] == CompatibleDropAllowed(doc, t, dragged, true))
      && (forall t :: t in belowCache ==> belowCache[t] == CompatibleDropAllowed(doc, t, dragged, false))
    }

    /** A drag starts with empty caches. */
    constructor (doc: Structure, dragged: seq<Element>)
      requires ElementStructure.Valid(doc)
      ensures this.doc == doc && this.dragged == dragged && aboveCache == map[] && belowCache == map[]
      ensures Sound()
    {
      this.doc := doc;
      this.dragged := dragged;
      aboveCache := map[];
      belowCache := map[];
    }

    /**
     * The rule's answer for a target, from the cache when it is there,
     * computed and cached otherwise: the cache changes no answer.
     */
    method ValidCompatibleDropTarget(target: Element, above: bool) returns (valid: bool)
      modifies this
      requires Sound()
      ensures Sound()
      ensures valid == CompatibleDropAllowed(doc, target, dragged, above)
      ensures above && target in old(aboveCache) ==> valid == old(aboveCache)[target] && aboveCache == old(aboveCache)
      ensures !above && target in old(belowCache) ==> valid == old(belowCache)[target] && belowCache == old(belowCache)
      ensures above ==> aboveCache == old(aboveCache)[target := valid] && belowCache == old(belowCache)
      ensures !above ==> belowCache == old(belowCache)[target := valid] && aboveCache == old(aboveCache)
    {
      if above {
        if target in aboveCache {
          valid := aboveCache[target];
        } else {
          valid := ValidCompatibleDropTargetHelper(doc, target, dragged, above);
          aboveCache := aboveCache[target := valid];
        }
      } else {
        if target in belowCache {
          valid := belowCache[target];
        } else {
          valid := ValidCompatibleDropTargetHelper(doc, target, dragged, above);
          belowCache := belowCache[target := valid];
        }
      }
    }

    /** The panel's answer for a row under a point, through the cache. */
    method ValidDropTargetCached(target: Element, b: Rect, p: Point) returns (r: Validation)
      modifies this
      requires Sound()
      ensures Sound()
      ensures r == ValidDropTarget(doc, target, b, dragged, p)
    {
      if !Inside(b, p) {
        return Validation(false, false);
      }
      var valid := ValidCompatibleDropTarget(target, DropAbove(b, p));
      r := Validation(true, valid);
    }
  }

  // ----- what a drag moves, and where it drops -----

  /** A layer can be dragged unless it is the background. */
  predicate ValidDragTarget(layer: Element) {
    !layer.isBackground
  }

  /** A layer a drag of the selection moves: a selected layer that is not the background. */
  predicate DraggedWithSelection(e: Element) {
    e.selected && !e.isBackground
  }

  /**
   * Dragging a selected layer drags every selected layer but the background,
   * in index order; an unselected one drags alone.
   */
  function DraggingLayers(s: Structure, dragLayer: Element): (r: seq<Element>)
    requires Valid(s)
    ensures dragLayer.selected ==> forall e :: e in r <==> e in All(s) && e.selected && !e.isBackground
    ensures dragLayer.selected ==> r == Filter(All(s), DraggedWithSelection)
    ensures !dragLayer.selected ==> r == [dragLayer]
  {
    FilterFilter(All(s), (e: Element) => e.selected, ValidDragTarget, DraggedWithSelection);
    if dragLayer.selected then Filter(Selected(s), ValidDragTarget) else [dragLayer]
  }

  /** The reorder a finished drop asks for: the dragged ids and the target index. */
  datatype Reorder = Reorder(ids: seq<int>, index: int)

  /** The ids of the given layers, in order. */
  function IdsOf(layers: seq<Element>): (r: seq<int>)
    ensures |r| == |layers| && forall i :: 0 <= i < |r| ==> r[i] == layers[i].id
  {
    if layers == [] then [] else [layers[0].id] + IdsOf(layers[1..])
  }

  /**
   * The end of a drag: without dragged layers nothing is asked; with them
   * and no drop target the panel fails reading the target; otherwise the
   * dragged layers go to the target's index for a drop above it, one less
   * for a drop below.
   */
  function HandleStop(s: Structure, dragTargets: Option<seq<Element>>, dropTarget: Option<Element>, above: bool): (r: Result<Option<Reorder>>)
    ensures dragTargets.None? ==> r == Ok(None)
    ensures dragTargets.Some? && dropTarget.None? ==> r.Err?
    ensures dragTargets.Some? && dropTarget.Some? ==> r.Ok? && r.value.Some?
    ensures r.Ok? && r.value.Some? ==> r.value.value.ids == IdsOf(dragTargets.value)
    ensures r.Ok? && r.value.Some? ==>
      r.value.value.index == OrZero(IndexOf(s, dropTarget.value)) - (if above then 0 else 1)
  {
    if dragTargets.None? then Ok(None)
    else if dropTarget.None? then Err("Cannot read property 'keyObject' of null")
    else Ok(Some(Reorder(IdsOf(dragTargets.value), OrZero(IndexOf(s, dropTarget.value)) - (if above then 0 else 1))))
  }

  /**
   * For a target in the index, a drop above asks for the target's own
   * 1-based position, whose lookup gives the target back; a drop below asks
   * for the position just before.
   */
  lemma DropIndexTarget(s: Structure, dragged: seq<Element>, target: Element, above: bool)
    requires Valid(s) && target.id in s.index && target.id in s.elements && s.elements[target.id] == target
    ensures var r := HandleStop(s, Some(dragged), Some(target), above);
      && r.Ok? && r.value.Some?
      && (above ==> ByIndex(s, r.value.value.index) == Some(target))
      && (!above ==> r.value.value.index == IndexOf(s, target).value - 1)
  {
    IndexRoundTrip(s, target);
  }
}
