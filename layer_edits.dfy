/**
 * The edits that add or swap whole layers: addLayers, replaceLayersByIndex
 * and resetLayers, with the Immutable list operations they are written in.
 *
 * As in the other edits, the source's `layers` map is the structure's one
 * element map.
 */
module LayerEdits {
  import opened Common
  import opened ElementModel
  import opened ElementStructure
  import StructureEdits

  // ----- Immutable list operations -----

  /**
   * Immutable's resolution of a begin position: a negative position counts
   * from the end, and the result is clamped to the list.
   */
  function ResolveBegin(i: int, size: nat): (r: nat)
    ensures r <= size
    ensures 0 <= i <= size ==> r == i
    ensures -(size as int) <= i < 0 ==> r == size + i
    ensures i > size ==> r == size
    ensures i < -(size as int) ==> r == 0
  {
    if i < 0 then (if size + i < 0 then 0 else size + i)
    else if i > size then size
    else i
  }

  /**
   * List.splice(at, removeNum, ...values): the values replace removeNum
   * entries starting at the resolved position (fewer when the list ends
   * first).
   */
  function Splice<T>(xs: seq<T>, at: int, removeNum: nat, values: seq<T>): (r: seq<T>)
    ensures var a := ResolveBegin(at, |xs|);
      var b := if a + removeNum <= |xs| then a + removeNum else |xs|;
      && |r| == a + |values| + (|xs| - b)
      && r[..a] == xs[..a]
      && r[a..a + |values|] == values
      && r[a + |values|..] == xs[b..]
  {
    var a := ResolveBegin(at, |xs|);
    var b := if a + removeNum <= |xs| then a + removeNum else |xs|;
    xs[..a] + values + xs[b..]
  }

  /** List.delete(i): a position from -size to size - 1 (negative from the end) is removed; any other leaves the list as it is. */
  function ListDelete<T>(xs: seq<T>, i: int): (r: seq<T>)
    ensures -|xs| <= i < |xs| ==> |r| == |xs| - 1
    ensures !(-|xs| <= i < |xs|) ==> r == xs
    ensures 0 <= i < |xs| ==> r == xs[..i] + xs[i + 1..]
  {
    if 0 <= i < |xs| then xs[..i] + xs[i + 1..]
    else if -|xs| <= i < 0 then xs[..|xs| + i] + xs[|xs| + i + 1..]
    else xs
  }

  /** List.set(i, v) for a position inside the list (negative from the end). */
  function ListSetInside<T>(xs: seq<T>, i: int, v: T): (r: seq<T>)
    requires -|xs| <= i < |xs|
    ensures |r| == |xs|
    ensures ListGet(r, i) == Some(v)
    ensures forall j :: 0 <= j < |xs| && j != (if i < 0 then |xs| + i else i) ==> r[j] == xs[j]
  {
    if i < 0 then xs[|xs| + i := v] else xs[i := v]
  }

  /** Inserting one id into a list of distinct ids, none equal to it, keeps the ids distinct. */
  lemma InsertNoDup(xs: seq<int>, at: int, id: int)
    requires NoDup(xs) && id !in xs
    ensures NoDup(Splice(xs, at, 0, [id]))
    ensures forall x :: x in Splice(xs, at, 0, [id]) <==> x in xs || x == id
  {
    var a := ResolveBegin(at, |xs|);
    var r := Splice(xs, at, 0, [id]);
    assert r == xs[..a] + [id] + xs[a..];
    assert xs == xs[..a] + xs[a..];
    NoDupConcat(xs[..a], [id]);
    NoDupConcat(xs[..a] + [id], xs[a..]);
  }

  // ----- folds over a batch of per-layer updates -----

  /** One entry of a batch: a layer id and the data for that layer. */
  datatype Entry<D> = Entry(id: int, data: D)

  /** Every entry names a layer of the map. */
  predicate AllKnown<D>(m: map<int, Element>, entries: seq<Entry<D>>) {
    forall i :: 0 <= i < |entries| ==> entries[i].id in m
  }

  /** Every id names a layer of the map. */
  predicate IdsKnown(m: map<int, Element>, ids: seq<int>) {
    forall i :: 0 <= i < |ids| ==> ids[i] in m
  }

  /** The data of the last entry for id k, or None when no entry names k. */
  function LastFor<D>(entries: seq<Entry<D>>, k: int): (r: Option<D>)
    ensures r.None? <==> forall i :: 0 <= i < |entries| ==> entries[i].id != k
  {
    if entries == [] then None
    else if entries[|entries| - 1].id == k then Some(entries[|entries| - 1].data)
    else LastFor(entries[..|entries| - 1], k)
  }

  /** The entry LastFor picks is the last one naming k. */
  lemma {:induction false} LastForLast<D>(entries: seq<Entry<D>>, i: nat)
    requires i < |entries| && forall j :: i < j < |entries| ==> entries[j].id != entries[i].id
    ensures LastFor(entries, entries[i].id) == Some(entries[i].data)
    decreases |entries|
  {
    if i < |entries| - 1 {
      var p := entries[..|entries| - 1];
      assert p[i] == entries[i];
      LastForLast(p, i);
    }
  }

  /**
   * A batch applied in order to a map, each entry computed from the layer
   * as it was before the batch: the last entry for an id decides that
   * layer, and layers no entry names keep their value.
   */
  function SetEach<D>(orig: map<int, Element>, entries: seq<Entry<D>>, f: (Element, D) -> Element): (r: map<int, Element>)
    requires AllKnown(orig, entries)
    ensures r.Keys == orig.Keys
    ensures forall k :: k in r ==> r[k] == match LastFor(entries, k) case None => orig[k] case Some(d) => f(orig[k], d)
    decreases |entries|
  {
    if entries == [] then orig
    else
      var n := |entries| - 1;
      var e := entries[n];
      SetEach(orig, entries[..n], f)[e.id := f(orig[e.id], e.data)]
  }

  /**
   * What a batch leaves behind: the same layers, each one some entry names
   * set from its last entry, every other one as it was.
   */
  ghost predicate Batched<D>(orig: map<int, Element>, entries: seq<Entry<D>>, f: (Element, D) -> Element, r: map<int, Element>)
    requires AllKnown(orig, entries)
  {
    && r.Keys == orig.Keys
    && (forall i :: 0 <= i < |entries| && (forall j :: i < j < |entries| ==> entries[j].id != entries[i].id) ==>
          r[entries[i].id] == f(orig[entries[i].id], entries[i].data))
    && (forall k :: k in orig && (forall i :: 0 <= i < |entries| ==> entries[i].id != k) ==> r[k] == orig[k])
  }

  /** The fold leaves exactly what a batch should. */
  lemma SetEachBatched<D>(orig: map<int, Element>, entries: seq<Entry<D>>, f: (Element, D) -> Element)
    requires AllKnown(orig, entries)
    ensures Batched(orig, entries, f, SetEach(orig, entries, f))
  {
    var r := SetEach(orig, entries, f);
    forall i | 0 <= i < |entries| && (forall j :: i < j < |entries| ==> entries[j].id != entries[i].id)
      ensures r[entries[i].id] == f(orig[entries[i].id], entries[i].data) {
      LastForLast(entries, i);
    }
  }

  /** An entry for an id has a last one after it. */
  lemma LastEntry<D>(entries: seq<Entry<D>>, i: nat) returns (last: nat)
    requires i < |entries|
    ensures i <= last < |entries| && entries[last].id == entries[i].id
    ensures forall j :: last < j < |entries| ==> entries[j].id != entries[i].id
    decreases |entries| - i
  {
    if exists j :: i < j < |entries| && entries[j].id == entries[i].id {
      var j :| i < j < |entries| && entries[j].id == entries[i].id;
      last := LastEntry(entries, j);
    } else {
      last := i;
    }
  }

  /**
   * A batch whose entries all carry the same data sets every named layer
   * from that data, and keeps every layer no entry names.
   */
  lemma BatchedSame<D>(orig: map<int, Element>, entries: seq<Entry<D>>, f: (Element, D) -> Element, r: map<int, Element>, d: D)
    requires AllKnown(orig, entries) && Batched(orig, entries, f, r)
    requires forall i :: 0 <= i < |entries| ==> entries[i].data == d
    ensures forall k :: (exists i :: 0 <= i < |entries| && entries[i].id == k) ==> r[k] == f(orig[k], d)
    ensures forall k :: k in orig && (forall i :: 0 <= i < |entries| ==> entries[i].id != k) ==> r[k] == orig[k]
  {
    forall k | exists i :: 0 <= i < |entries| && entries[i].id == k ensures r[k] == f(orig[k], d) {
      var i :| 0 <= i < |entries| && entries[i].id == k;
      var last := LastEntry(entries, i);
    }
  }

  /**
   * A batch with one entry per listed id, all carrying the same data, sets
   * every listed layer from that data and keeps every other layer.
   */
  lemma BatchedSameIds<D>(orig: map<int, Element>, ids: seq<int>, entries: seq<Entry<D>>, f: (Element, D) -> Element,
                          r: map<int, Element>, d: D)
    requires |entries| == |ids| && forall i :: 0 <= i < |entries| ==> entries[i] == Entry(ids[i], d)
    requires AllKnown(orig, entries) && Batched(orig, entries, f, r)
    ensures forall k :: k in ids ==> r[k] == f(orig[k], d)
    ensures forall k :: k in orig && k !in ids ==> r[k] == orig[k]
  {
    BatchedSame(orig, entries, f, r, d);
    forall k | k in ids ensures exists i :: 0 <= i < |entries| && entries[i].id == k {
      var i :| 0 <= i < |ids| && ids[i] == k;
      assert entries[i].id == k;
    }
  }

  /**
   * The batch as the source runs it: a loop over the entries that sets
   * each layer in a mutable copy of the map.
   */
  method ApplyEach<D>(orig: map<int, Element>, entries: seq<Entry<D>>, f: (Element, D) -> Element) returns (m: map<int, Element>)
    requires AllKnown(orig, entries)
    ensures m == SetEach(orig, entries, f)
  {
    m := orig;
    var i := 0;
    while i < |entries|
      invariant 0 <= i <= |entries|
      invariant m == SetEach(orig, entries[..i], f)
    {
      var e := entries[i];
      assert entries[..i + 1][..i] == entries[..i];
      m := m[e.id := f(orig[e.id], e.data)];
      i := i + 1;
    }
    assert entries[..|entries|] == entries;
  }

  /** The same change f applied to every layer whose id is listed; ids the map does not hold are passed over. */
  function PatchEach(orig: map<int, Element>, ids: seq<int>, f: Element -> Element): (r: map<int, Element>)
    ensures r.Keys == orig.Keys
    ensures forall k :: k in r ==> r[k] == if k in ids then f(orig[k]) else orig[k]
  {
    map k | k in orig :: if k in ids then f(orig[k]) else orig[k]
  }

  /** A change that keeps a layer's id, kind and parent flag. */
  ghost predicate KeepsShape(f: Element -> Element) {
    forall e :: f(e).id == e.id && f(e).kind == e.kind && f(e).isParent == e.isParent
  }

  /** A batched change that keeps each layer's id, kind and parent flag. */
  ghost predicate KeepsShapeWith<D(!new)>(f: (Element, D) -> Element) {
    forall e, d :: f(e, d).id == e.id && f(e, d).kind == e.kind && f(e, d).isParent == e.isParent
  }

  /** Changing layers without touching their ids, kinds or parent flags keeps a structure valid. */
  lemma PatchEachValid(s: Structure, ids: seq<int>, f: Element -> Element)
    requires Valid(s) && KeepsShape(f)
    ensures Valid(Structure(PatchEach(s.elements, ids, f), s.index))
  {
    var r := Structure(PatchEach(s.elements, ids, f), s.index);
    forall k | k in r.elements ensures r.elements[k].id == k {
      assert r.elements[k].id == s.elements[k].id;
    }
    forall k | k in r.elements && r.elements[k].kind == GroupEnd ensures !r.elements[k].isParent {
      assert r.elements[k].kind == s.elements[k].kind && r.elements[k].isParent == s.elements[k].isParent;
    }
  }

  /** The same for a batch with per-layer data. */
  lemma SetEachValid<D(!new)>(s: Structure, entries: seq<Entry<D>>, f: (Element, D) -> Element)
    requires Valid(s) && AllKnown(s.elements, entries) && KeepsShapeWith(f)
    ensures Valid(Structure(SetEach(s.elements, entries, f), s.index))
  {
    var r := SetEach(s.elements, entries, f);
    forall k | k in r
      ensures r[k].id == s.elements[k].id && r[k].kind == s.elements[k].kind && r[k].isParent == s.elements[k].isParent
    {
      match LastFor(entries, k)
      case None =>
      case Some(d) => assert r[k] == f(s.elements[k], d);
    }
  }

  // ----- addLayers -----

  /**
   * The caller's choice of replacement: explicitly false, not given, a
   * layer id, or explicitly true.
   */
  datatype Replace = ReplaceFalse | ReplaceUnset | ReplaceLayer(id: int) | ReplaceTrue

  /** Whether the argument is truthy in JavaScript (the id 0 is not). */
  predicate Truthy(replace: Replace) {
    replace.ReplaceTrue? || (replace.ReplaceLayer? && replace.id != 0)
  }

  /**
   * A host layer descriptor reduced to what the structure reads: its
   * 1-based position and the layer the element constructor builds from it
   * (whose selection flag the structure sets).
   */
  datatype LayerDescriptor = LayerDescriptor(itemIndex: int, layer: Element)

  /** A layer that a lone new layer replaces by default: an empty pixel layer that is not the background. */
  predicate Replaceable(e: Element) {
    !e.isBackground && e.kind == Pixel && e.bounds.Some? && e.bounds.value.Area() == 0
  }

  /** The layer that replacement would take: the given id's layer, or the one selected layer. */
  function ReplaceCandidate(s: Structure, replace: Replace): (r: Option<Element>)
    requires Valid(s)
    ensures replace.ReplaceLayer? ==> r == ByID(s, replace.id)
    ensures !replace.ReplaceLayer? ==> (r.Some? <==> |Selected(s)| == 1)
    ensures !replace.ReplaceLayer? && r.Some? ==> r.value.selected && r.value in All(s)
  {
    match replace
    case ReplaceLayer(id) => ByID(s, id)
    case _ =>
      var sel := Selected(s);
      if |sel| == 1 then assert sel[0] in sel; Some(sel[0]) else None
  }

  /**
   * The layer the first new layer replaces, None when it is inserted
   * instead. A truthy argument with several new layers leaves the source
   * without a layer to replace, and it fails reading that layer's id.
   */
  function ReplaceTarget(s: Structure, layerIDs: seq<int>, replace: Replace): (r: Result<Option<Element>>)
    requires Valid(s)
    ensures r.Err? <==> |layerIDs| >= 2 && Truthy(replace)
    ensures r.Ok? && r.value.Some? ==> |layerIDs| == 1 && r.value == ReplaceCandidate(s, replace)
    ensures r.Ok? && r.value.Some? && !Truthy(replace) ==> Replaceable(r.value.value)
    ensures (&& |layerIDs| == 1 && replace != ReplaceFalse && ReplaceCandidate(s, replace).Some?
             && (Truthy(replace) || Replaceable(ReplaceCandidate(s, replace).value)))
      ==> r == Ok(ReplaceCandidate(s, replace))
  {
    if replace != ReplaceFalse && |layerIDs| == 1 then
      var c := ReplaceCandidate(s, replace);
      Ok(if c.Some? && (Truthy(replace) || Replaceable(c.value)) then c else None)
    else if |layerIDs| >= 2 && Truthy(replace) then
      Err("Cannot read property 'id' of undefined")
    else
      Ok(None)
  }

  /** The position (0-based, -1 when absent) the source computes for the replaced layer. */
  function ReplaceIndex(s: Structure, target: Element): (r: int)
    ensures target.id in s.index ==> 0 <= r < |s.index| && s.index[r] == target.id
    ensures target.id !in s.index ==> r == -1
  {
    (match IndexOf(s, target) case Some(p) => p case None => 0) - 1
  }

  /**
   * The first new layer takes the target's place: the target leaves the
   * map; the new id goes into the target's slot when the descriptor names
   * that slot, and otherwise the target's id is deleted and the new id
   * inserted at the descriptor's position, which must then lie inside the
   * index.
   */
  function ReplaceInto(s: Structure, acc: Structure, target: Element, layerIndex: int, id: int): (r: Result<Structure>)
    ensures r.Err? <==> layerIndex != ReplaceIndex(s, target) && layerIndex >= |acc.index|
    ensures r.Ok? ==> r.value.elements == acc.elements - {target.id}
    ensures r.Ok? && layerIndex == ReplaceIndex(s, target) ==> r.value.index == Splice(acc.index, layerIndex, 1, [id])
    ensures r.Ok? && layerIndex != ReplaceIndex(s, target) ==>
      r.value.index == Splice(ListDelete(acc.index, ReplaceIndex(s, target)), layerIndex, 0, [id])
  {
    var replaceIndex := ReplaceIndex(s, target);
    var layers := acc.elements - {target.id};
    if layerIndex == replaceIndex then
      Ok(Structure(layers, Splice(acc.index, layerIndex, 1, [id])))
    else if layerIndex < |acc.index| then
      Ok(Structure(layers, Splice(ListDelete(acc.index, replaceIndex), layerIndex, 0, [id])))
    else
      Err("Replacing a layer but the new layer's index seems out of bounds")
  }

  /** The layer built for the i-th new id: selected only when the batch selects and it is the last one. */
  function NewLayer(d: LayerDescriptor, selected: bool, i: nat, count: nat): (e: Element)
    ensures e.selected <==> selected && i + 1 == count
    ensures e == d.layer.(selected := e.selected)
  {
    d.layer.(selected := selected && i + 1 == count)
  }

  /**
   * One step of the reduce: the i-th new id goes into the index at its
   * descriptor's position (replacing the target, if any) and its layer is
   * stored in the map.
   */
  function AddStep(s: Structure, acc: Structure, id: int, d: LayerDescriptor, selected: bool,
                   target: Option<Element>, i: nat, count: nat): (r: Result<Structure>)
    ensures r.Ok? ==> id in r.value.elements && r.value.elements[id] == NewLayer(d, selected, i, count)
    ensures r.Ok? ==> forall k :: k in r.value.elements && k != id ==> k in acc.elements && r.value.elements[k] == acc.elements[k]
    ensures target.None? ==> r.Ok? && r.value.index == Splice(acc.index, d.itemIndex - 1, 0, [id])
    ensures target.None? ==> r.value.elements.Keys == acc.elements.Keys + {id}
  {
    var step :=
      if target.Some? then ReplaceInto(s, acc, target.value, d.itemIndex - 1, id)
      else Ok(acc.(index := Splice(acc.index, d.itemIndex - 1, 0, [id])));
    match step
    case Err(e) => Err(e)
    case Ok(a) => Ok(Structure(a.elements[id := NewLayer(d, selected, i, count)], a.index))
  }

  /**
   * The reduce over the new ids from the i-th on: each is inserted at its
   * descriptor's position (the first one replacing the target, if any) and
   * stored in the map. A missing descriptor fails.
   */
  function AddFrom(s: Structure, acc: Structure, layerIDs: seq<int>, descriptors: seq<LayerDescriptor>,
                   selected: bool, target: Option<Element>, i: nat): (r: Result<Structure>)
    requires i <= |layerIDs|
    requires i > 0 ==> target.None?
    ensures i < |layerIDs| && |descriptors| < |layerIDs| ==> r.Err?
    ensures r.Ok? ==> forall j :: i <= j < |layerIDs| ==> layerIDs[j] in r.value.elements
    ensures r.Ok? ==> forall k :: k in r.value.elements ==> k in acc.elements || k in layerIDs[i..]
    ensures r.Ok? && target.None? ==> acc.elements.Keys <= r.value.elements.Keys
    ensures r.Ok? && target.None? ==> |r.value.index| == |acc.index| + (|layerIDs| - i)
    decreases |layerIDs| - i
  {
    if i == |layerIDs| then Ok(acc)
    else if i >= |descriptors| then Err("Cannot read property 'itemIndex' of undefined")
    else
      match AddStep(s, acc, layerIDs[i], descriptors[i], selected, target, i, |layerIDs|)
      case Err(e) => Err(e)
      case Ok(next) =>
        var r := AddFrom(s, next, layerIDs, descriptors, selected, None, i + 1);
        assert r.Ok? ==> forall k :: k in r.value.elements ==> k in acc.elements || k in layerIDs[i..] by {
          if r.Ok? {
            forall k | k in r.value.elements ensures k in acc.elements || k in layerIDs[i..] {
              if k !in next.elements {
                assert k in layerIDs[i + 1..];
                assert layerIDs[i + 1..] == layerIDs[i..][1..];
              } else if k == layerIDs[i] {
                assert layerIDs[i..][0] == k;
              }
            }
          }
        }
        r
  }

  /**
   * Add new layers from host descriptors. When `selected`, the existing
   * selection is cleared and the last new layer is selected. A lone new
   * layer may replace an existing one: the layer the caller names, or else
   * the one selected layer when the caller forces replacement or that
   * layer is an empty pixel layer other than the background.
   */
  function AddLayers(s: Structure, layerIDs: seq<int>, descriptors: seq<LayerDescriptor>,
                     selected: bool, replace: Replace): (r: Result<Structure>)
    requires Valid(s)
    ensures |layerIDs| >= 2 && Truthy(replace) ==> r.Err?
    ensures |layerIDs| > |descriptors| ==> r.Err?
    ensures r.Ok? ==> forall k :: k in layerIDs ==> k in r.value.elements
    ensures r.Ok? ==> forall k :: k in r.value.elements ==> k in s.elements || k in layerIDs
    ensures r.Ok? && ReplaceTarget(s, layerIDs, replace) == Ok(None) ==> |r.value.index| == |s.index| + |layerIDs|
  {
    var start := if selected then StructureEdits.UpdateSelection(s, {}) else s;
    match ReplaceTarget(s, layerIDs, replace)
    case Err(e) => Err(e)
    case Ok(target) =>
      if |layerIDs| == 0 then Ok(start)
      else AddFrom(s, start, layerIDs, descriptors, selected, target, 0)
  }

  /**
   * A lone new layer added without replacement lands at its descriptor's
   * position in the index, the ids around it keep their order, and the
   * layer is stored with the selection flag the call asks for.
   */
  lemma AddOneLayer(s: Structure, id: int, d: LayerDescriptor, selected: bool, replace: Replace)
    requires Valid(s)
    requires replace == ReplaceFalse || (replace == ReplaceUnset && |Selected(s)| != 1)
    ensures var r := AddLayers(s, [id], [d], selected, replace);
      var a := ResolveBegin(d.itemIndex - 1, |s.index|);
      && r.Ok?
      && r.value.index == s.index[..a] + [id] + s.index[a..]
      && id in r.value.elements && r.value.elements[id] == d.layer.(selected := selected)
      && (forall k :: k in r.value.elements && k != id ==>
            k in s.elements && r.value.elements[k] == s.elements[k].(selected := s.elements[k].selected && !selected))
  {
    var start := if selected then StructureEdits.UpdateSelection(s, {}) else s;
    assert ReplaceTarget(s, [id], replace) == Ok(None);
    var a := ResolveBegin(d.itemIndex - 1, |s.index|);
    var step := start.(index := Splice(start.index, d.itemIndex - 1, 0, [id]));
    assert step.index == s.index[..a] + [id] + s.index[a..];
    var next := Structure(step.elements[id := NewLayer(d, selected, 0, 1)], step.index);
    assert AddStep(s, start, id, d, selected, None, 0, 1) == Ok(next);
    assert AddFrom(s, next, [id], [d], selected, None, 1) == Ok(next);
    assert AddFrom(s, start, [id], [d], selected, None, 0) == Ok(next);
  }

  /**
   * Position and lookup agree after a lone add: when the descriptor's
   * position is inside the grown index, the layer found there is the new
   * one.
   */
  lemma AddOneLayerByIndex(s: Structure, id: int, d: LayerDescriptor, selected: bool)
    requires Valid(s) && 1 <= d.itemIndex <= |s.index| + 1
    ensures AddLayers(s, [id], [d], selected, ReplaceFalse).Ok?
    ensures ByIndex(AddLayers(s, [id], [d], selected, ReplaceFalse).value, d.itemIndex) == Some(d.layer.(selected := selected))
  {
    AddOneLayer(s, id, d, selected, ReplaceFalse);
    var r := AddLayers(s, [id], [d], selected, ReplaceFalse).value;
    assert r.index[d.itemIndex - 1] == id;
  }

  /**
   * A lone replacing layer whose descriptor names the replaced layer's own
   * slot takes over that slot: the index changes only there, and the
   * replaced layer leaves the map.
   */
  lemma ReplaceInPlace(s: Structure, id: int, d: LayerDescriptor, selected: bool, victim: int)
    requires Valid(s) && victim in s.index && victim != id && victim != 0
    requires d.itemIndex - 1 == ReplaceIndex(s, s.elements[victim])
    ensures var r := AddLayers(s, [id], [d], selected, ReplaceLayer(victim));
      && r.Ok?
      && r.value.index == s.index[ReplaceIndex(s, s.elements[victim]) := id]
      && victim !in r.value.elements
      && r.value.elements[id] == d.layer.(selected := selected)
  {
    var e := s.elements[victim];
    var p := ReplaceIndex(s, e);
    var start := if selected then StructureEdits.UpdateSelection(s, {}) else s;
    ReplaceLayerTarget(s, id, victim);
    AddLayersOne(s, id, d, selected, ReplaceLayer(victim), Some(e));
    var step := ReplaceInto(s, start, e, d.itemIndex - 1, id);
    assert step.Ok? && step.value.index == Splice(s.index, p, 1, [id]);
    AddStepReplacing(s, start, id, d, selected, e, 0, 1);
    SpliceOne(s.index, p, id);
    assert victim !in step.value.elements;
  }

  /** A replacing step that finds its slot stores the new layer in the structure the replacement left. */
  lemma AddStepReplacing(s: Structure, acc: Structure, id: int, d: LayerDescriptor, selected: bool, target: Element, i: nat, count: nat)
    requires ReplaceInto(s, acc, target, d.itemIndex - 1, id).Ok?
    ensures var a := ReplaceInto(s, acc, target, d.itemIndex - 1, id).value;
      AddStep(s, acc, id, d, selected, Some(target), i, count) == Ok(Structure(a.elements[id := NewLayer(d, selected, i, count)], a.index))
  {
  }

  /** Splicing one id over one slot overwrites that slot. */
  lemma SpliceOne(xs: seq<int>, p: int, id: int)
    requires 0 <= p < |xs|
    ensures Splice(xs, p, 1, [id]) == xs[p := id]
  {
    assert Splice(xs, p, 1, [id]) == xs[..p] + [id] + xs[p + 1..];
  }

  /** Replacing a layer by a nonzero id that is in the map targets that layer. */
  lemma ReplaceLayerTarget(s: Structure, id: int, victim: int)
    requires Valid(s) && victim in s.elements && victim != 0
    ensures ReplaceTarget(s, [id], ReplaceLayer(victim)) == Ok(Some(s.elements[victim]))
  {
    assert s.elements[victim].id == victim;
  }

  /** Adding a lone layer is one step of the reduce, on the structure with the selection cleared or kept. */
  lemma AddLayersOne(s: Structure, id: int, d: LayerDescriptor, selected: bool, replace: Replace, target: Option<Element>)
    requires Valid(s) && ReplaceTarget(s, [id], replace) == Ok(target)
    ensures var start := if selected then StructureEdits.UpdateSelection(s, {}) else s;
      AddLayers(s, [id], [d], selected, replace) == AddStep(s, start, id, d, selected, target, 0, 1)
  {
    var start := if selected then StructureEdits.UpdateSelection(s, {}) else s;
    var step := AddStep(s, start, id, d, selected, target, 0, 1);
    if step.Ok? {
      assert AddFrom(s, step.value, [id], [d], selected, None, 1) == step;
    }
  }

  /** Every layer left unselected before the last new one is stored, the last new layer is the one selected. */
  lemma {:induction false} AddFromSelects(s: Structure, acc: Structure, layerIDs: seq<int>, descriptors: seq<LayerDescriptor>,
                                          target: Option<Element>, i: nat)
    requires i < |layerIDs| && (i > 0 ==> target.None?)
    requires forall k :: k in acc.elements ==> !acc.elements[k].selected
    ensures var r := AddFrom(s, acc, layerIDs, descriptors, true, target, i);
      r.Ok? ==> forall k :: k in r.value.elements ==> (r.value.elements[k].selected <==> k == layerIDs[|layerIDs| - 1])
    decreases |layerIDs| - i
  {
    if i < |descriptors| {
      var step := AddStep(s, acc, layerIDs[i], descriptors[i], true, target, i, |layerIDs|);
      if step.Ok? {
        var next := step.value;
        assert AddFrom(s, acc, layerIDs, descriptors, true, target, i) ==
          AddFrom(s, next, layerIDs, descriptors, true, None, i + 1);
        if i + 1 < |layerIDs| {
          AddFromSelects(s, next, layerIDs, descriptors, None, i + 1);
          var r := AddFrom(s, next, layerIDs, descriptors, true, None, i + 1);
          assert r.Ok? ==> forall k :: k in r.value.elements ==> (r.value.elements[k].selected <==> k == layerIDs[|layerIDs| - 1]);
        } else {
          assert AddFrom(s, next, layerIDs, descriptors, true, None, i + 1) == Ok(next);
        }
      }
    }
  }

  /** Adding selected layers leaves exactly the last new layer selected. */
  lemma AddLayersSelects(s: Structure, layerIDs: seq<int>, descriptors: seq<LayerDescriptor>, replace: Replace)
    requires Valid(s) && |layerIDs| >= 1
    ensures var r := AddLayers(s, layerIDs, descriptors, true, replace);
      r.Ok? ==> forall k :: k in r.value.elements ==> (r.value.elements[k].selected <==> k == layerIDs[|layerIDs| - 1])
  {
    var start := StructureEdits.UpdateSelection(s, {});
    if ReplaceTarget(s, layerIDs, replace).Ok? {
      AddFromSelects(s, start, layerIDs, descriptors, ReplaceTarget(s, layerIDs, replace).value, 0);
    }
  }

  /** The new layers carry their own ids and are not unmatched group ends that open a level. */
  predicate FitDescriptors(layerIDs: seq<int>, descriptors: seq<LayerDescriptor>) {
    && |descriptors| >= |layerIDs|
    && (forall i :: 0 <= i < |layerIDs| ==> descriptors[i].layer.id == layerIDs[i])
    && (forall i :: 0 <= i < |layerIDs| && descriptors[i].layer.kind == GroupEnd ==> !descriptors[i].layer.isParent)
  }

  /** Inserting one fresh layer keeps the structure valid. */
  lemma AddStepValid(s: Structure, acc: Structure, id: int, d: LayerDescriptor, selected: bool, i: nat, count: nat)
    requires Valid(acc) && id !in acc.elements && d.layer.id == id && (d.layer.kind == GroupEnd ==> !d.layer.isParent)
    ensures Valid(AddStep(s, acc, id, d, selected, None, i, count).value)
  {
    var next := AddStep(s, acc, id, d, selected, None, i, count).value;
    assert id !in acc.index;
    InsertNoDup(acc.index, d.itemIndex - 1, id);
    forall j | 0 <= j < |next.index| ensures next.index[j] in next.elements {
      assert next.index[j] in next.index;
    }
  }

  /** Inserting fresh layers one at a time keeps the structure valid. */
  lemma {:induction false} AddFromValid(s: Structure, acc: Structure, layerIDs: seq<int>, descriptors: seq<LayerDescriptor>,
                                        selected: bool, i: nat)
    requires i <= |layerIDs| && Valid(acc) && NoDup(layerIDs) && FitDescriptors(layerIDs, descriptors)
    requires forall j :: i <= j < |layerIDs| ==> layerIDs[j] !in acc.elements
    ensures AddFrom(s, acc, layerIDs, descriptors, selected, None, i).Ok?
    ensures Valid(AddFrom(s, acc, layerIDs, descriptors, selected, None, i).value)
    decreases |layerIDs| - i
  {
    if i < |layerIDs| {
      var next := AddStep(s, acc, layerIDs[i], descriptors[i], selected, None, i, |layerIDs|).value;
      AddStepValid(s, acc, layerIDs[i], descriptors[i], selected, i, |layerIDs|);
      assert AddFrom(s, acc, layerIDs, descriptors, selected, None, i) ==
        AddFrom(s, next, layerIDs, descriptors, selected, None, i + 1);
      forall j | i + 1 <= j < |layerIDs| ensures layerIDs[j] !in next.elements {
        assert layerIDs[j] != layerIDs[i];
      }
      AddFromValid(s, next, layerIDs, descriptors, selected, i + 1);
    }
  }

  /** Adding fresh, distinct layers without replacement succeeds and keeps the structure valid. */
  lemma AddLayersValid(s: Structure, layerIDs: seq<int>, descriptors: seq<LayerDescriptor>, selected: bool)
    requires Valid(s) && NoDup(layerIDs) && FitDescriptors(layerIDs, descriptors)
    requires forall i :: 0 <= i < |layerIDs| ==> layerIDs[i] !in s.elements
    ensures AddLayers(s, layerIDs, descriptors, selected, ReplaceFalse).Ok?
    ensures Valid(AddLayers(s, layerIDs, descriptors, selected, ReplaceFalse).value)
  {
    var start := if selected then StructureEdits.UpdateSelection(s, {}) else s;
    if selected {
      StructureEdits.UpdateSelectionSelected(s, {});
    }
    AddLayersPlain(s, layerIDs, descriptors, selected);
    if |layerIDs| > 0 {
      AddFromValid(s, start, layerIDs, descriptors, selected, 0);
    }
  }

  /** Without replacement, adding layers is the inserts one at a time into the structure with the selection cleared or kept. */
  lemma AddLayersPlain(s: Structure, layerIDs: seq<int>, descriptors: seq<LayerDescriptor>, selected: bool)
    requires Valid(s)
    ensures var start := if selected then StructureEdits.UpdateSelection(s, {}) else s;
      AddLayers(s, layerIDs, descriptors, selected, ReplaceFalse) ==
        if |layerIDs| == 0 then Ok(start) else AddFrom(s, start, layerIDs, descriptors, selected, None, 0)
  {
    assert ReplaceTarget(s, layerIDs, ReplaceFalse) == Ok(None);
  }

  /** A replacement whose descriptor points past the index, away from the replaced slot, fails. */
  lemma ReplaceOutOfBounds(s: Structure, id: int, d: LayerDescriptor, selected: bool, victim: int)
    requires Valid(s) && victim in s.elements && victim != 0
    requires d.itemIndex - 1 != ReplaceIndex(s, s.elements[victim]) && d.itemIndex - 1 >= |s.index|
    ensures AddLayers(s, [id], [d], selected, ReplaceLayer(victim)) ==
      Err("Replacing a layer but the new layer's index seems out of bounds")
  {
    var start := if selected then StructureEdits.UpdateSelection(s, {}) else s;
    ReplaceLayerTarget(s, id, victim);
    AddLayersOne(s, id, d, selected, ReplaceLayer(victim), Some(s.elements[victim]));
    assert ReplaceInto(s, start, s.elements[victim], d.itemIndex - 1, id).Err?;
  }

  // ----- replaceLayersByIndex -----

  /** A position ByIndex resolves lies inside the index, counting negative positions from the end. */
  lemma ByIndexInside(s: Structure, position: int)
    ensures ByIndex(s, position).Some? ==> -|s.index| <= position - 1 < |s.index|
  {
  }

  /**
   * The forEach over the descriptors from the i-th on: each descriptor's
   * position names the layer it replaces, looked up in the structure as it
   * was before the call; that layer leaves the map, the new one (keeping
   * the old one's selection) enters it, and the position now holds the new
   * id. A position with no layer fails.
   */
  function ReplaceByIndexFrom(s: Structure, acc: Structure, descriptors: seq<LayerDescriptor>, i: nat): (r: Result<Structure>)
    requires i <= |descriptors| && |acc.index| == |s.index|
    ensures r.Ok? ==> |r.value.index| == |s.index|
    ensures r.Err? <==> exists j :: i <= j < |descriptors| && ByIndex(s, descriptors[j].itemIndex).None?
    decreases |descriptors| - i
  {
    if i == |descriptors| then Ok(acc)
    else
      var d := descriptors[i];
      ByIndexInside(s, d.itemIndex);
      match ByIndex(s, d.itemIndex)
      case None => Err("Cannot read property 'selected' of null")
      case Some(prev) =>
        var next := d.layer.(selected := prev.selected);
        var layers := (acc.elements - {prev.id})[next.id := next];
        ReplaceByIndexFrom(s, Structure(layers, ListSetInside(acc.index, d.itemIndex - 1, next.id)), descriptors, i + 1)
  }

  /** The loop the source runs, with the index and the map updated in place, ends where the fold does. */
  method ReplaceLayersByIndex(s: Structure, descriptors: seq<LayerDescriptor>) returns (r: Result<Structure>)
    ensures r == ReplaceByIndexFrom(s, s, descriptors, 0)
  {
    var layers := s.elements;
    var nextIndex := s.index;
    var i := 0;
    while i < |descriptors|
      invariant 0 <= i <= |descriptors| && |nextIndex| == |s.index|
      invariant ReplaceByIndexFrom(s, Structure(layers, nextIndex), descriptors, i) == ReplaceByIndexFrom(s, s, descriptors, 0)
    {
      var d := descriptors[i];
      ByIndexInside(s, d.itemIndex);
      var previous := ByIndex(s, d.itemIndex);
      if previous.None? {
        return Err("Cannot read property 'selected' of null");
      }
      var next := d.layer.(selected := previous.value.selected);
      ReplaceByIndexStep(s, Structure(layers, nextIndex), descriptors, i);
      layers := layers - {previous.value.id};
      layers := layers[next.id := next];
      nextIndex := ListSetInside(nextIndex, d.itemIndex - 1, next.id);
      i := i + 1;
    }
    return Ok(Structure(layers, nextIndex));
  }

  /** One turn of the forEach: a position with no layer fails, any other hands the swapped structure to the next turn. */
  lemma ReplaceByIndexStep(s: Structure, acc: Structure, descriptors: seq<LayerDescriptor>, i: nat)
    requires i < |descriptors| && |acc.index| == |s.index|
    ensures var d := descriptors[i];
      match ByIndex(s, d.itemIndex)
      case None => ReplaceByIndexFrom(s, acc, descriptors, i).Err?
      case Some(prev) =>
        var next := d.layer.(selected := prev.selected);
        ReplaceByIndexFrom(s, acc, descriptors, i) ==
          ReplaceByIndexFrom(s, Structure((acc.elements - {prev.id})[next.id := next], ListSetInside(acc.index, d.itemIndex - 1, next.id)), descriptors, i + 1)
  {
  }

  /**
   * One descriptor naming an occupied position swaps the layer there for
   * the new one: the index changes only at that position, the old layer
   * leaves the map unless the new one has its id, and the new one keeps
   * the old one's selection.
   */
  lemma ReplaceOneByIndex(s: Structure, d: LayerDescriptor)
    requires Valid(s) && 1 <= d.itemIndex <= |s.index|
    ensures var r := ReplaceByIndexFrom(s, s, [d], 0);
      var prev := s.elements[s.index[d.itemIndex - 1]];
      && r.Ok?
      && r.value.index == s.index[d.itemIndex - 1 := d.layer.id]
      && d.layer.id in r.value.elements
      && r.value.elements[d.layer.id] == d.layer.(selected := prev.selected)
      && (prev.id != d.layer.id ==> prev.id !in r.value.elements)
      && (forall k :: k in r.value.elements && k != d.layer.id ==> k in s.elements && r.value.elements[k] == s.elements[k])
  {
    var prev := s.elements[s.index[d.itemIndex - 1]];
    assert s.index[d.itemIndex - 1] in s.index;
    assert ByIndex(s, d.itemIndex) == Some(prev);
    var next := d.layer.(selected := prev.selected);
    var acc := Structure((s.elements - {prev.id})[next.id := next], ListSetInside(s.index, d.itemIndex - 1, next.id));
    assert ReplaceByIndexFrom(s, acc, [d], 1) == Ok(acc);
  }

  // ----- resetLayers -----

  /**
   * Rebuild listed layers from host descriptors. The element's own reset
   * from a descriptor is not part of this model and is a parameter; an id
   * the structure does not hold fails.
   */
  function ResetLayers(s: Structure, entries: seq<Entry<Props>>, reset: (Element, Props) -> Element): (r: Result<Structure>)
    ensures r.Err? <==> !AllKnown(s.elements, entries)
    ensures r.Ok? ==> r.value.index == s.index && Batched(s.elements, entries, reset, r.value.elements)
  {
    if AllKnown(s.elements, entries) then
      SetEachBatched(s.elements, entries, reset);
      Ok(Structure(SetEach(s.elements, entries, reset), s.index))
    else
      Err("Cannot read property 'resetFromDescriptor' of null")
  }

  /** Resetting layers keeps the structure valid when the reset keeps each layer's id, kind and parent flag. */
  lemma ResetLayersValid(s: Structure, entries: seq<Entry<Props>>, reset: (Element, Props) -> Element)
    requires Valid(s) && AllKnown(s.elements, entries) && KeepsShapeWith(reset)
    ensures ResetLayers(s, entries, reset).Ok? && Valid(ResetLayers(s, entries, reset).value)
  {
    SetEachValid(s, entries, reset);
  }
}
