/**
 * The targeted property edits of an element structure: bounds, flags,
 * radii, fills, strokes, layer effects and text styles. Each edit changes
 * only the named layers, and only the fields it is about; the index never
 * changes. A layer the source dereferences without finding it makes the
 * edit fail, with the message the JavaScript engine gives.
 */
module PropertyEdits {
  import opened Common
  import opened ElementModel
  import opened ElementStructure
  import opened LayerEdits

  /** The first error a check reports for the ids in order, or None when every id passes. */
  function FirstError(ids: seq<int>, check: int -> Option<string>): (r: Option<string>)
    ensures r.None? <==> forall i :: 0 <= i < |ids| ==> check(ids[i]).None?
    ensures r.Some? ==> exists i :: 0 <= i < |ids| && check(ids[i]) == r && forall j :: 0 <= j < i ==> check(ids[j]).None?
  {
    if ids == [] then None
    else if check(ids[0]).Some? then check(ids[0])
    else
      var r := FirstError(ids[1..], check);
      assert r.Some? ==> exists i :: 0 <= i < |ids| && check(ids[i]) == r && forall j :: 0 <= j < i ==> check(ids[j]).None? by {
        if r.Some? {
          var i :| 0 <= i < |ids[1..]| && check(ids[1..][i]) == r && forall j :: 0 <= j < i ==> check(ids[1..][j]).None?;
          assert forall j :: 1 <= j < i + 1 ==> check(ids[j]).None? by {
            forall j | 1 <= j < i + 1 ensures check(ids[j]).None? {
              assert ids[j] == ids[1..][j - 1];
            }
          }
        }
      }
      r
  }

  // ----- bounds -----

  /** The new size and top-left corner of one layer. */
  datatype SizeAndPosition = SizeAndPosition(x: int, y: int, w: int, h: int)

  /** The new top-left corner of one layer. */
  datatype Position = Position(x: int, y: int)

  const NoLayerForBounds := "Cannot read property 'bounds' of null"

  /** A layer resized and moved; a layer without bounds (a group, a group end) is left alone. */
  function ResizeOne(e: Element, p: SizeAndPosition): (r: Element)
    ensures e.bounds.None? ==> r == e
    ensures e.bounds.Some? ==> r == e.(bounds := r.bounds) && r.bounds.Some?
    ensures e.bounds.Some? ==> var b := r.bounds.value;
      b.left == p.x && b.top == p.y && b.Width() == p.w && b.Height() == p.h
  {
    if e.bounds.Some? then e.(bounds := Some(e.bounds.value.UpdateSizeAndPosition(p.x, p.y, p.w, p.h))) else e
  }

  /** A layer moved so that its top-left corner is at the point, keeping its size. */
  function RepositionOne(e: Element, p: Position): (r: Element)
    ensures e.bounds.None? ==> r == e
    ensures e.bounds.Some? ==> r == e.(bounds := r.bounds) && r.bounds.Some?
    ensures e.bounds.Some? ==> var b := r.bounds.value;
      b.left == p.x && b.top == p.y && b.Width() == e.bounds.value.Width() && b.Height() == e.bounds.value.Height()
  {
    if e.bounds.Some? then e.(bounds := Some(e.bounds.value.UpdatePosition(p.x, p.y))) else e
  }

  /** Resize and move the listed layers, each to its own size and corner; the last entry for a layer wins. */
  function ResizeLayers(s: Structure, sizes: seq<Entry<SizeAndPosition>>): (r: Result<Structure>)
    ensures r.Err? <==> !AllKnown(s.elements, sizes)
    ensures r.Ok? ==> r.value.index == s.index && Batched(s.elements, sizes, ResizeOne, r.value.elements)
  {
    if AllKnown(s.elements, sizes) then
      SetEachBatched(s.elements, sizes, ResizeOne);
      Ok(Structure(SetEach(s.elements, sizes, ResizeOne), s.index))
    else Err(NoLayerForBounds)
  }

  /** Move the listed layers, each to its own corner. */
  function RepositionLayers(s: Structure, positions: seq<Entry<Position>>): (r: Result<Structure>)
    ensures r.Err? <==> !AllKnown(s.elements, positions)
    ensures r.Ok? ==> r.value.index == s.index && Batched(s.elements, positions, RepositionOne, r.value.elements)
  {
    if AllKnown(s.elements, positions) then
      SetEachBatched(s.elements, positions, RepositionOne);
      Ok(Structure(SetEach(s.elements, positions, RepositionOne), s.index))
    else Err(NoLayerForBounds)
  }

  /**
   * Rebuild the bounds of the listed layers from host descriptors, told the
   * layer's kind and artboard flag. The rectangle's own reset from a
   * descriptor is not part of this model and is a parameter.
   */
  function ResetBounds(s: Structure, entries: seq<Entry<Props>>, resetBounds: (Bounds, Props, Kind, bool) -> Bounds): (r: Result<Structure>)
    ensures r.Err? <==> !AllKnown(s.elements, entries)
    ensures r.Ok? ==> r.value.index == s.index
    ensures r.Ok? ==> Batched(s.elements, entries,
      (e: Element, d: Props) => if e.bounds.Some? then e.(bounds := Some(resetBounds(e.bounds.value, d, e.kind, e.isArtboard))) else e,
      r.value.elements)
  {
    var f := (e: Element, d: Props) => if e.bounds.Some? then e.(bounds := Some(resetBounds(e.bounds.value, d, e.kind, e.isArtboard))) else e;
    if AllKnown(s.elements, entries) then
      SetEachBatched(s.elements, entries, f);
      Ok(Structure(SetEach(s.elements, entries, f), s.index))
    else Err(NoLayerForBounds)
  }

  /** A layer with its bounds set to the given corner and size, its other fields kept. */
  function SizeOne(e: Element, x: int, y: int, w: int, h: int): (r: Element)
    ensures e.bounds.None? ==> r == e
    ensures e.bounds.Some? ==> r == e.(bounds := Some(Bounds(y, x, y + h, x + w)))
  {
    ResizeOne(e, SizeAndPosition(x, y, w, h))
  }

  /**
   * updateBounds as written: the requested top is passed where the corner's
   * x goes and the requested left where its y goes.
   */
  function UpdateBoundsAsWritten(s: Structure, ids: seq<int>, top: int, left: int, width: int, height: int): (r: Result<Structure>)
    ensures r.Err? <==> !IdsKnown(s.elements, ids)
    ensures r.Ok? ==> r.value.index == s.index && r.value.elements.Keys == s.elements.Keys
    ensures r.Ok? ==> forall k :: k in s.elements ==>
      r.value.elements[k] == if k in ids then SizeOne(s.elements[k], top, left, width, height) else s.elements[k]
  {
    if IdsKnown(s.elements, ids) then Ok(Structure(PatchEach(s.elements, ids, e => SizeOne(e, top, left, width, height)), s.index))
    else Err(NoLayerForBounds)
  }

  /** updateBounds as its parameters intend: the layer's top edge goes to `top` and its left edge to `left`. */
  function UpdateBounds(s: Structure, ids: seq<int>, top: int, left: int, width: int, height: int): (r: Result<Structure>)
    ensures r.Err? <==> !IdsKnown(s.elements, ids)
    ensures r.Ok? ==> r.value.index == s.index && r.value.elements.Keys == s.elements.Keys
    ensures r.Ok? ==> forall k :: k in s.elements ==>
      r.value.elements[k] == if k in ids then SizeOne(s.elements[k], left, top, width, height) else s.elements[k]
    ensures r.Ok? ==> forall k :: k in ids && s.elements[k].bounds.Some? ==>
      r.value.elements[k].bounds == Some(Bounds(top, left, top + height, left + width))
  {
    if IdsKnown(s.elements, ids) then Ok(Structure(PatchEach(s.elements, ids, e => SizeOne(e, left, top, width, height)), s.index))
    else Err(NoLayerForBounds)
  }

  /** A layer with bounds at (1, 2), i.e. top 1 and left 2, and a 3 by 4 size. */
  const Probe := NewElement(7, "", Pixel, false).(bounds := Some(Bounds(1, 2, 5, 5)))

  /** The as-written updateBounds, asked for top 10 and left 20, puts the layer's top at 20 and its left at 10. */
  lemma UpdateBoundsSwapsCorner()
    ensures var s := Structure(map[7 := Probe], [7]);
      && UpdateBoundsAsWritten(s, [7], 10, 20, 3, 4).Ok?
      && UpdateBoundsAsWritten(s, [7], 10, 20, 3, 4).value.elements[7].bounds == Some(Bounds(20, 10, 24, 13))
      && UpdateBounds(s, [7], 10, 20, 3, 4).value.elements[7].bounds == Some(Bounds(10, 20, 14, 23))
  {
    var s := Structure(map[7 := Probe], [7]);
    assert IdsKnown(s.elements, [7]);
  }

  /** A layer moved by (x, y), keeping its size. */
  function TranslateOne(e: Element, x: int, y: int): (r: Element)
    ensures e.bounds.None? ==> r == e
    ensures e.bounds.Some? ==> r.bounds.Some? && r == e.(bounds := r.bounds)
    ensures e.bounds.Some? ==> var b, a := e.bounds.value, r.bounds.value;
      a.left == b.left + x && a.top == b.top + y && a.Width() == b.Width() && a.Height() == b.Height()
  {
    if e.bounds.Some? then
      var b := e.bounds.value;
      e.(bounds := Some(b.UpdatePosition(b.left + x, b.top + y)))
    else e
  }

  /** Move the listed layers by the same offset. */
  function TranslateLayers(s: Structure, ids: seq<int>, x: int, y: int): (r: Result<Structure>)
    ensures r.Err? <==> !IdsKnown(s.elements, ids)
    ensures r.Ok? ==> r.value.index == s.index && r.value.elements.Keys == s.elements.Keys
    ensures r.Ok? ==> forall k :: k in s.elements ==>
      r.value.elements[k] == if k in ids then TranslateOne(s.elements[k], x, y) else s.elements[k]
  {
    if IdsKnown(s.elements, ids) then Ok(Structure(PatchEach(s.elements, ids, e => TranslateOne(e, x, y)), s.index))
    else Err(NoLayerForBounds)
  }

  /** Moving by an offset and back by its opposite restores the structure. */
  lemma TranslateInverse(s: Structure, ids: seq<int>, x: int, y: int)
    requires IdsKnown(s.elements, ids)
    ensures TranslateLayers(s, ids, x, y).Ok?
    ensures TranslateLayers(TranslateLayers(s, ids, x, y).value, ids, -x, -y) == Ok(s)
  {
    var t := TranslateLayers(s, ids, x, y).value;
    assert IdsKnown(t.elements, ids);
    var u := TranslateLayers(t, ids, -x, -y).value;
    forall k | k in s.elements ensures u.elements[k] == s.elements[k] {
      if k in ids {
        TranslateBack(s.elements[k], x, y);
      }
    }
    assert u.elements == s.elements;
  }

  /** Moving one layer by an offset and back restores it. */
  lemma TranslateBack(e: Element, x: int, y: int)
    ensures TranslateOne(TranslateOne(e, x, y), -x, -y) == e
  {
    if e.bounds.Some? {
      var b := e.bounds.value;
      var a := TranslateOne(TranslateOne(e, x, y), -x, -y).bounds.value;
      assert a == b;
    }
  }

  /** Bounds edits keep a structure valid. */
  lemma TranslateValid(s: Structure, ids: seq<int>, x: int, y: int)
    requires Valid(s) && IdsKnown(s.elements, ids)
    ensures Valid(TranslateLayers(s, ids, x, y).value)
  {
    PatchEachValid(s, ids, e => TranslateOne(e, x, y));
  }

  // ----- flags, radii and basic properties -----

  /** Set the proportional-scaling flag of the listed layers; ids the structure does not hold are passed over. */
  function SetLayersProportional(s: Structure, ids: seq<int>, proportional: bool): (r: Structure)
    ensures r.index == s.index && r.elements.Keys == s.elements.Keys
    ensures forall k :: k in r.elements ==>
      r.elements[k] == if k in ids then s.elements[k].(proportionalScaling := proportional) else s.elements[k]
  {
    Structure(PatchEach(s.elements, ids, (e: Element) => e.(proportionalScaling := proportional)), s.index)
  }

  /** Setting the flag twice to the same value is the same as once. */
  lemma SetLayersProportionalIdempotent(s: Structure, ids: seq<int>, proportional: bool)
    ensures SetLayersProportional(SetLayersProportional(s, ids, proportional), ids, proportional) ==
      SetLayersProportional(s, ids, proportional)
  {
  }

  /**
   * setBorderRadii as written: it builds the radii with a constructor the
   * file never imports, so every call fails before any layer is read.
   */
  function SetBorderRadiiAsWritten(s: Structure, ids: seq<int>, radii: Props): (r: Result<Structure>)
    ensures r.Err?
  {
    Err("Radii is not defined")
  }

  /** setBorderRadii as intended: the listed layers carry the given radii; ids the structure does not hold are passed over. */
  function SetBorderRadii(s: Structure, ids: seq<int>, radii: Props): (r: Structure)
    ensures r.index == s.index && r.elements.Keys == s.elements.Keys
    ensures forall k :: k in r.elements ==>
      r.elements[k] == if k in ids then s.elements[k].(radii := Some(radii)) else s.elements[k]
  {
    Structure(PatchEach(s.elements, ids, (e: Element) => e.(radii := Some(radii))), s.index)
  }

  /** The intended radii edit succeeds where the written one fails, and applying it twice is applying it once. */
  lemma SetBorderRadiiFixed(s: Structure, ids: seq<int>, radii: Props)
    ensures SetBorderRadiiAsWritten(s, ids, radii).Err?
    ensures SetBorderRadii(SetBorderRadii(s, ids, radii), ids, radii) == SetBorderRadii(s, ids, radii)
    ensures forall k :: k in ids && k in s.elements ==> SetBorderRadii(s, ids, radii).elements[k].radii == Some(radii)
  {
  }

  /** The given value, or the fallback when none is given. */
  function Pick<T>(o: Option<T>, fallback: T): T {
    if o.Some? then o.value else fallback
  }

  /** A patch of basic properties: each given field replaces the layer's own. */
  datatype BasicProps = BasicProps(name: Option<string>, visible: Option<bool>, locked: Option<bool>, expanded: Option<bool>)

  /** A layer with the patch's given fields set and every other field kept. */
  function ApplyProps(e: Element, p: BasicProps): (r: Element)
    ensures r.name == Pick(p.name, e.name) && r.visible == Pick(p.visible, e.visible)
    ensures r.locked == Pick(p.locked, e.locked) && r.expanded == Pick(p.expanded, e.expanded)
    ensures r.(name := e.name, visible := e.visible, locked := e.locked, expanded := e.expanded) == e
  {
    e.(name := Pick(p.name, e.name), visible := Pick(p.visible, e.visible),
       locked := Pick(p.locked, e.locked), expanded := Pick(p.expanded, e.expanded))
  }

  /** Patch the basic properties of the listed layers; ids the structure does not hold are passed over. */
  function SetProperties(s: Structure, ids: seq<int>, p: BasicProps): (r: Structure)
    ensures r.index == s.index && r.elements.Keys == s.elements.Keys
    ensures forall k :: k in r.elements ==>
      r.elements[k] == if k in ids then ApplyProps(s.elements[k], p) else s.elements[k]
  {
    Structure(PatchEach(s.elements, ids, e => ApplyProps(e, p)), s.index)
  }

  /** A patch applied twice is applied once, and it keeps a structure valid. */
  lemma SetPropertiesIdempotentValid(s: Structure, ids: seq<int>, p: BasicProps)
    ensures SetProperties(SetProperties(s, ids, p), ids, p) == SetProperties(s, ids, p)
    ensures Valid(s) ==> Valid(SetProperties(s, ids, p))
  {
    var once := SetProperties(s, ids, p);
    var twice := SetProperties(once, ids, p);
    forall k | k in s.elements ensures twice.elements[k] == once.elements[k] {
      if k in ids {
        ApplyPropsTwice(s.elements[k], p);
      }
    }
    assert twice.elements == once.elements;
    if Valid(s) {
      PatchEachValid(s, ids, e => ApplyProps(e, p));
    }
  }

  /** A patch applied to a layer twice is applied once. */
  lemma ApplyPropsTwice(e: Element, p: BasicProps)
    ensures ApplyProps(ApplyProps(e, p), p) == ApplyProps(e, p)
  {
  }

  // ----- fills and strokes -----

  /** The two per-layer paint lists. */
  datatype PaintList = Fills | Strokes

  function Paints(e: Element, which: PaintList): Option<seq<Option<Props>>> {
    if which == Fills then e.fills else e.strokes
  }

  function WithPaints(e: Element, which: PaintList, ps: seq<Option<Props>>): (r: Element)
    ensures Paints(r, which) == Some(ps)
    ensures r == if which == Fills then e.(fills := Some(ps)) else e.(strokes := Some(ps))
  {
    if which == Fills then e.(fills := Some(ps)) else e.(strokes := Some(ps))
  }

  function PaintName(which: PaintList): string {
    if which == Fills then "fill" else "stroke"
  }

  /** Why setting the paint at the index of a layer would fail, or None when it would not. */
  function PaintError(s: Structure, which: PaintList, id: int, index: int): (r: Option<string>)
    ensures r.None? <==> (&& id in s.elements && Paints(s.elements[id], which).Some?
                          && ListGet(Paints(s.elements[id], which).value, index).Some?
                          && ListGet(Paints(s.elements[id], which).value, index).value.Some?)
  {
    if id !in s.elements then Some("Cannot read property '" + PaintName(which) + "s' of null")
    else if Paints(s.elements[id], which).None? then Some("Cannot read property 'get' of null")
    else
      var got: Option<Option<Props>> := ListGet(Paints(s.elements[id], which).value, index);
      match got
      case Some(Some(_)) => None
      case _ => Some("Unable to set " + PaintName(which) + " properties: no " + PaintName(which) + " at index " + IntToString(index))
  }

  /** A layer whose paint at the index (counting negative indexes from the end) has the properties merged in. */
  function MergePaint(e: Element, which: PaintList, index: int, props: Props): (r: Element)
  {
    match Paints(e, which)
    case None => e
    case Some(ps) =>
      var got: Option<Option<Props>> := ListGet(ps, index);
      match got
      case Some(Some(p)) => WithPaints(e, which, ListSetInside(ps, index, Some(Merge(p, props))))
      case _ => e
  }

  /**
   * Merge properties into the paint at the index of every listed layer.
   * The first listed layer that is missing, has no list, or has no paint
   * there makes the edit fail with its error.
   */
  function SetPaintProperties(s: Structure, which: PaintList, ids: seq<int>, index: int, props: Props): (r: Result<Structure>)
    ensures r.Err? <==> exists i :: 0 <= i < |ids| && PaintError(s, which, ids[i], index).Some?
    ensures r.Err? ==> exists i :: (&& 0 <= i < |ids| && PaintError(s, which, ids[i], index) == Some(r.error)
                                    && forall j :: 0 <= j < i ==> PaintError(s, which, ids[j], index).None?)
    ensures r.Ok? ==> r.value.index == s.index && r.value.elements.Keys == s.elements.Keys
    ensures r.Ok? ==> forall k :: k in s.elements && k !in ids ==> r.value.elements[k] == s.elements[k]
    ensures r.Ok? ==> forall k :: k in ids ==>
      && PaintError(s, which, k, index).None?
      && var ps := Paints(s.elements[k], which).value;
         r.value.elements[k] == WithPaints(s.elements[k], which, ListSetInside(ps, index, Some(Merge(ListGet(ps, index).value.value, props))))
  {
    match FirstError(ids, id => PaintError(s, which, id, index))
    case Some(e) => Err(e)
    case None =>
      assert forall k :: k in ids ==> PaintError(s, which, k, index).None? by {
        forall k | k in ids ensures PaintError(s, which, k, index).None? {
          var i :| 0 <= i < |ids| && ids[i] == k;
        }
      }
      Ok(Structure(PatchEach(s.elements, ids, e => MergePaint(e, which, index, props)), s.index))
  }

  /** setFillProperties: merge into the fill at the index. */
  function SetFillProperties(s: Structure, ids: seq<int>, index: int, props: Props): (r: Result<Structure>)
    ensures r == SetPaintProperties(s, Fills, ids, index, props)
    ensures r.Ok? ==> forall k :: k in ids ==> r.value.elements[k].strokes == s.elements[k].strokes
  {
    SetPaintProperties(s, Fills, ids, index, props)
  }

  /** setStrokeProperties: merge into the stroke at the index. */
  function SetStrokeProperties(s: Structure, ids: seq<int>, index: int, props: Props): (r: Result<Structure>)
    ensures r == SetPaintProperties(s, Strokes, ids, index, props)
    ensures r.Ok? ==> forall k :: k in ids ==> r.value.elements[k].fills == s.elements[k].fills
  {
    SetPaintProperties(s, Strokes, ids, index, props)
  }

  /** A layer's fills with one more at the end; a layer without fills gets a list of just that one. */
  function AppendFill(e: Element, fill: Props): (r: Element)
    ensures r.fills.Some? && |r.fills.value| == (if e.fills.Some? then |e.fills.value| else 0) + 1
    ensures r.fills.value[|r.fills.value| - 1] == Some(fill)
    ensures e.fills.Some? ==> r.fills.value[..|e.fills.value|] == e.fills.value
    ensures r == e.(fills := r.fills)
  {
    e.(fills := Some(if e.fills.Some? then e.fills.value + [Some(fill)] else [Some(fill)]))
  }

  /** Add a fill at the end of every listed layer's fills. */
  function AddFill(s: Structure, ids: seq<int>, fill: Props): (r: Result<Structure>)
    ensures r.Err? <==> !IdsKnown(s.elements, ids)
    ensures r.Ok? ==> r.value.index == s.index && r.value.elements.Keys == s.elements.Keys
    ensures r.Ok? ==> forall k :: k in s.elements ==>
      r.value.elements[k] == if k in ids then AppendFill(s.elements[k], fill) else s.elements[k]
  {
    if IdsKnown(s.elements, ids) then Ok(Structure(PatchEach(s.elements, ids, e => AppendFill(e, fill)), s.index))
    else Err("Cannot read property 'fills' of null")
  }

  /** A run of empty list slots. */
  function Holes<T>(n: nat): (r: seq<Option<T>>)
    ensures |r| == n && forall i :: 0 <= i < n ==> r[i].None?
  {
    seq(n, _ => None)
  }

  /**
   * Immutable's List.set(i, v) on a list with empty slots: inside the list
   * (a negative index counts from the end) the slot is replaced; past the
   * end the list grows, with empty slots in between; before the start it
   * grows at the front.
   */
  function ListSet<T>(xs: seq<Option<T>>, i: int, v: T): (r: seq<Option<T>>)
    ensures -|xs| <= i < |xs| ==> r == ListSetInside(xs, i, Some(v))
    ensures i >= |xs| ==> |r| == i + 1 && r[..|xs|] == xs && r[i] == Some(v) && forall j :: |xs| <= j < i ==> r[j].None?
    ensures i < -|xs| ==> |r| == -i && r[0] == Some(v) && r[|r| - |xs|..] == xs && forall j :: 0 < j < |r| - |xs| ==> r[j].None?
  {
    if -|xs| <= i < |xs| then ListSetInside(xs, i, Some(v))
    else if i >= |xs| then xs + Holes(i - |xs|) + [Some(v)]
    else [Some(v)] + Holes(-(|xs| + i) - 1) + xs
  }

  /** Where a stroke for the i-th layer comes from: one descriptor for every layer, or one per layer. */
  datatype StrokeSource = OneStroke(stroke: Props) | StrokePerLayer(strokes: seq<Props>)

  /** The stroke for the i-th listed layer; a per-layer list too short for it has none. */
  function StrokeFor(src: StrokeSource, i: nat): Option<Props> {
    match src
    case OneStroke(p) => Some(p)
    case StrokePerLayer(ps) => if i < |ps| then Some(ps[i]) else None
  }

  /**
   * addStroke as written: the stroke constructor it calls is never imported
   * by the file, so the edit fails as soon as there is a layer to give a
   * stroke, and does nothing otherwise.
   */
  function AddStrokeAsWritten(s: Structure, ids: seq<int>, index: int, src: StrokeSource): (r: Result<Structure>)
    ensures r.Err? <==> |ids| > 0
    ensures r.Ok? ==> r.value == s
  {
    if |ids| > 0 then Err("Stroke is not defined") else Ok(s)
  }

  /** A layer with the stroke set at the index, or a one-stroke list when it has none. */
  function SetStroke(e: Element, index: int, stroke: Props): (r: Element)
    ensures r.strokes.Some?
    ensures e.strokes.None? ==> r.strokes.value == [Some(stroke)]
    ensures e.strokes.Some? && 0 <= index ==> index < |r.strokes.value| && r.strokes.value[index] == Some(stroke)
    ensures r == e.(strokes := r.strokes)
  {
    e.(strokes := Some(if e.strokes.Some? then ListSet(e.strokes.value, index, stroke) else [Some(stroke)]))
  }

  /** The batch of stroke updates addStroke makes, layer by layer from the i-th on. */
  function StrokeEntries(ids: seq<int>, src: StrokeSource, i: nat): (r: seq<Entry<Props>>)
    requires i <= |ids| && forall j :: i <= j < |ids| ==> StrokeFor(src, j).Some?
    ensures |r| == |ids| - i
    ensures forall j :: 0 <= j < |r| ==> r[j] == Entry(ids[i + j], StrokeFor(src, i + j).value)
    decreases |ids| - i
  {
    if i == |ids| then [] else [Entry(ids[i], StrokeFor(src, i).value)] + StrokeEntries(ids, src, i + 1)
  }

  /** Every listed layer, up to the n-th, has a stroke to take. */
  predicate StrokesCover(src: StrokeSource, n: nat) {
    forall i :: 0 <= i < n ==> StrokeFor(src, i).Some?
  }

  /** One layer's stroke update, as a batch step. */
  function StrokeStep(index: int): (Element, Props) -> Element {
    (e: Element, p: Props) => SetStroke(e, index, p)
  }

  /**
   * addStroke as intended: every listed layer gets its stroke at the index
   * (the list growing as List.set grows it), or a one-stroke list when it
   * has none. A missing layer or a missing per-layer descriptor fails.
   */
  function AddStroke(s: Structure, ids: seq<int>, index: int, src: StrokeSource): (r: Result<Structure>)
    ensures r.Err? <==> !IdsKnown(s.elements, ids) || !StrokesCover(src, |ids|)
    ensures r.Ok? ==> r.value.index == s.index
    ensures r.Ok? ==> AllKnown(s.elements, StrokeEntries(ids, src, 0))
    ensures r.Ok? ==> Batched(s.elements, StrokeEntries(ids, src, 0), StrokeStep(index), r.value.elements)
  {
    if !IdsKnown(s.elements, ids) then Err("Cannot read property 'strokes' of null")
    else if !StrokesCover(src, |ids|) then Err("Cannot read property 'stroke' of undefined")
    else
      var entries := StrokeEntries(ids, src, 0);
      SetEachBatched(s.elements, entries, StrokeStep(index));
      Ok(Structure(SetEach(s.elements, entries, StrokeStep(index)), s.index))
  }

  /** Where the as-written addStroke fails on any layer, the intended one gives every listed layer its stroke, and leaves the others. */
  lemma AddStrokeFixed(s: Structure, ids: seq<int>, index: int, stroke: Props)
    requires |ids| > 0 && IdsKnown(s.elements, ids)
    ensures AddStrokeAsWritten(s, ids, index, OneStroke(stroke)).Err?
    ensures AddStroke(s, ids, index, OneStroke(stroke)).Ok?
    ensures forall k :: k in ids ==>
      AddStroke(s, ids, index, OneStroke(stroke)).value.elements[k] == SetStroke(s.elements[k], index, stroke)
    ensures forall k :: k in s.elements && k !in ids ==>
      AddStroke(s, ids, index, OneStroke(stroke)).value.elements[k] == s.elements[k]
  {
    var src := OneStroke(stroke);
    assert StrokesCover(src, |ids|);
    var entries := StrokeEntries(ids, src, 0);
    var r := AddStroke(s, ids, index, src).value;
    BatchedSameIds(s.elements, ids, entries, StrokeStep(index), r.elements, stroke);
  }

  // ----- layer effects -----

  /** The effect position for every layer, or one per layer; None stands for a position that is not a finite number. */
  datatype EffectIndex = SameIndex(index: Option<int>) | IndexPerLayer(indexes: seq<Option<int>>)

  /** The properties to merge for every layer, or one set per layer. */
  datatype EffectProps = SameProps(props: Props) | PropsPerLayer(propsList: seq<Props>)

  /** What one layer's effect update reads: the position (None: append) and the properties (None: nothing to merge). */
  datatype EffectUpdate = EffectUpdate(index: Option<int>, props: Option<Props>)

  /** The update for the i-th listed layer. */
  function UpdateFor(index: EffectIndex, props: EffectProps, i: nat): EffectUpdate {
    EffectUpdate(
      match index
      case SameIndex(n) => n
      case IndexPerLayer(ns) => if i < |ns| then ns[i] else None,
      match props
      case SameProps(p) => Some(p)
      case PropsPerLayer(ps) => if i < |ps| then Some(ps[i]) else None)
  }

  function EffectUpdates(ids: seq<int>, index: EffectIndex, props: EffectProps, i: nat): (r: seq<Entry<EffectUpdate>>)
    requires i <= |ids|
    ensures |r| == |ids| - i
    ensures forall j :: 0 <= j < |r| ==> r[j] == Entry(ids[i + j], UpdateFor(index, props, i + j))
    decreases |ids| - i
  {
    if i == |ids| then [] else [Entry(ids[i], UpdateFor(index, props, i))] + EffectUpdates(ids, index, props, i + 1)
  }

  /** The layer's effects of a type; a layer without that type has none. */
  function EffectsOf(e: Element, effectType: string): seq<Option<Props>> {
    if effectType in e.layerEffects then e.layerEffects[effectType] else []
  }

  /**
   * A list of effects with one updated: the effect at the position (a
   * fresh default effect if the slot is empty) with the properties merged,
   * stored back at the position; a missing position appends.
   */
  function NextEffects(effects: seq<Option<Props>>, defaults: Props, u: EffectUpdate): (r: seq<Option<Props>>)
    ensures u.index.None? ==> r == effects + [Some(if u.props.Some? then Merge(defaults, u.props.value) else defaults)]
    ensures u.index.Some? && u.index.value >= 0 ==> |r| == if u.index.value < |effects| then |effects| else u.index.value + 1
    ensures u.index.Some? && u.index.value >= 0 ==> r[u.index.value].Some?
    ensures u.index.Some? && 0 <= u.index.value < |effects| ==>
      forall j :: 0 <= j < |effects| && j != u.index.value ==> r[j] == effects[j]
  {
    var at := if u.index.Some? then u.index.value else |effects|;
    var got: Option<Option<Props>> := ListGet(effects, at);
    var current := match got case Some(Some(p)) => p case _ => defaults;
    ListSet(effects, at, if u.props.Some? then Merge(current, u.props.value) else current)
  }

  /** A layer with its effects of a type updated, and marked as having had an effect. */
  function UpdateEffect(e: Element, effectType: string, defaults: Props, u: EffectUpdate): (r: Element)
    ensures r.usedToHaveLayerEffect
    ensures r == e.(layerEffects := e.layerEffects[effectType := NextEffects(EffectsOf(e, effectType), defaults, u)],
                    usedToHaveLayerEffect := true)
  {
    e.(layerEffects := e.layerEffects[effectType := NextEffects(EffectsOf(e, effectType), defaults, u)],
       usedToHaveLayerEffect := true)
  }

  /** One layer's effect update, as a batch step. */
  function EffectStep(effectType: string, defaults: Props): (Element, EffectUpdate) -> Element {
    (e: Element, u: EffectUpdate) => UpdateEffect(e, effectType, defaults, u)
  }

  const InvalidEffectType := "Invalid layerEffectType supplied"

  /**
   * Update one effect of a type on every listed layer. The set of effect
   * types and the default effect of the type belong to the element record,
   * which is not part of this model; they are parameters. An unknown type
   * or a missing layer fails.
   */
  function SetLayerEffectProperties(s: Structure, ids: seq<int>, index: EffectIndex, effectType: string,
                                    props: EffectProps, effectTypes: set<string>, defaults: Props): (r: Result<Structure>)
    ensures effectType !in effectTypes ==> r == Err(InvalidEffectType)
    ensures effectType in effectTypes ==> (r.Err? <==> !IdsKnown(s.elements, ids))
    ensures r.Ok? ==> r.value.index == s.index
    ensures r.Ok? ==> AllKnown(s.elements, EffectUpdates(ids, index, props, 0))
    ensures r.Ok? ==> Batched(s.elements, EffectUpdates(ids, index, props, 0), EffectStep(effectType, defaults), r.value.elements)
  {
    if effectType !in effectTypes then Err(InvalidEffectType)
    else if !IdsKnown(s.elements, ids) then Err("Cannot read property 'getLayerEffectsByType' of null")
    else
      var entries := EffectUpdates(ids, index, props, 0);
      SetEachBatched(s.elements, entries, EffectStep(effectType, defaults));
      Ok(Structure(SetEach(s.elements, entries, EffectStep(effectType, defaults)), s.index))
  }

  /**
   * With one position and one set of properties for all, every listed
   * layer has had an effect, every other effect type is kept, and layers
   * not listed are unchanged.
   */
  lemma SetLayerEffectEach(s: Structure, ids: seq<int>, n: int, effectType: string, p: Props,
                           effectTypes: set<string>, defaults: Props)
    requires effectType in effectTypes && IdsKnown(s.elements, ids)
    ensures var r := SetLayerEffectProperties(s, ids, SameIndex(Some(n)), effectType, SameProps(p), effectTypes, defaults);
      && r.Ok?
      && (forall k :: k in ids ==>
            r.value.elements[k] == UpdateEffect(s.elements[k], effectType, defaults, EffectUpdate(Some(n), Some(p))))
      && (forall k :: k in s.elements && k !in ids ==> r.value.elements[k] == s.elements[k])
  {
    var entries := EffectUpdates(ids, SameIndex(Some(n)), SameProps(p), 0);
    var u := EffectUpdate(Some(n), Some(p));
    var r := SetLayerEffectProperties(s, ids, SameIndex(Some(n)), effectType, SameProps(p), effectTypes, defaults).value;
    BatchedSameIds(s.elements, ids, entries, EffectStep(effectType, defaults), r.elements, u);
  }

  /** The list without the entry at the position; a position outside the list removes nothing. */
  function RemoveAt<T>(xs: seq<T>, d: int): (r: seq<T>)
    ensures 0 <= d < |xs| ==> |r| == |xs| - 1 && r[..d] == xs[..d] && r[d..] == xs[d + 1..]
    ensures !(0 <= d < |xs|) ==> r == xs
  {
    if 0 <= d < |xs| then xs[..d] + xs[d + 1..] else xs
  }

  /** A layer's effects of a type replaced by g applied to them, when it has that type and is listed. */
  function EditEffects(e: Element, ids: seq<int>, effectType: string, g: seq<Option<Props>> -> seq<Option<Props>>): (r: Element)
    ensures e.id in ids && effectType in e.layerEffects ==>
      r == e.(layerEffects := e.layerEffects[effectType := g(e.layerEffects[effectType])])
    ensures !(e.id in ids && effectType in e.layerEffects) ==> r == e
  {
    if e.id in ids && effectType in e.layerEffects then e.(layerEffects := e.layerEffects[effectType := g(e.layerEffects[effectType])])
    else e
  }

  /**
   * Remove the effect at a position from the effects of a type of every
   * listed layer that has that type. Layers are matched by their own id.
   */
  function DeleteLayerEffectProperties(s: Structure, ids: seq<int>, deletedIndex: int, effectType: string,
                                       effectTypes: set<string>): (r: Result<Structure>)
    ensures r.Err? <==> effectType !in effectTypes
    ensures r.Ok? ==> r.value.index == s.index && r.value.elements.Keys == s.elements.Keys
    ensures r.Ok? ==> forall k :: k in s.elements ==> var e := s.elements[k];
      r.value.elements[k] == EditEffects(e, ids, effectType, xs => RemoveAt(xs, deletedIndex))
  {
    if effectType !in effectTypes then Err(InvalidEffectType)
    else Ok(Structure(map k | k in s.elements :: EditEffects(s.elements[k], ids, effectType, xs => RemoveAt(xs, deletedIndex)), s.index))
  }

  /** Empty the effects of a type of every listed layer that has that type. */
  function DeleteAllLayerEffects(s: Structure, ids: seq<int>, effectType: string, effectTypes: set<string>): (r: Result<Structure>)
    ensures r.Err? <==> effectType !in effectTypes
    ensures r.Ok? ==> r.value.index == s.index && r.value.elements.Keys == s.elements.Keys
    ensures r.Ok? ==> forall k :: k in s.elements ==>
      r.value.elements[k] == EditEffects(s.elements[k], ids, effectType, xs => [])
  {
    if effectType !in effectTypes then Err(InvalidEffectType)
    else Ok(Structure(map k | k in s.elements :: EditEffects(s.elements[k], ids, effectType, xs => []), s.index))
  }

  /**
   * After emptying, a listed layer that had effects of the type has none,
   * and emptying again changes nothing.
   */
  lemma DeleteAllLayerEffectsIdempotent(s: Structure, ids: seq<int>, effectType: string, effectTypes: set<string>)
    requires effectType in effectTypes
    ensures var r := DeleteAllLayerEffects(s, ids, effectType, effectTypes).value;
      && (forall k :: k in r.elements && r.elements[k].id in ids && effectType in s.elements[k].layerEffects ==>
            r.elements[k].layerEffects[effectType] == [])
      && DeleteAllLayerEffects(r, ids, effectType, effectTypes) == Ok(r)
  {
    var r := DeleteAllLayerEffects(s, ids, effectType, effectTypes).value;
    var r2 := DeleteAllLayerEffects(r, ids, effectType, effectTypes).value;
    forall k | k in r.elements ensures r2.elements[k] == r.elements[k] {
      var e := r.elements[k];
      assert e.id == s.elements[k].id;
      if e.id in ids && effectType in e.layerEffects {
        assert e.layerEffects[effectType] == [];
        assert e.layerEffects[effectType := []] == e.layerEffects;
      }
    }
    assert r2.elements == r.elements;
  }

  // ----- text styles -----

  /** The two style bags of a text layer. */
  datatype StyleKind = CharacterStyle | ParagraphStyle

  function StyleName(kind: StyleKind): string {
    if kind == CharacterStyle then "characterStyle" else "paragraphStyle"
  }

  function Style(t: TextStyle, kind: StyleKind): Props {
    if kind == CharacterStyle then t.characterStyle else t.paragraphStyle
  }

  /** A text layer with the properties merged into one style; the other style is kept. */
  function MergeStyle(e: Element, kind: StyleKind, props: Props): (r: Element)
    ensures e.text.None? ==> r == e
    ensures e.text.Some? ==> r.text.Some? && r == e.(text := r.text)
    ensures e.text.Some? ==> Style(r.text.value, kind) == Merge(Style(e.text.value, kind), props)
    ensures e.text.Some? ==> forall other :: other != kind ==> Style(r.text.value, other) == Style(e.text.value, other)
  {
    match e.text
    case None => e
    case Some(t) =>
      e.(text := Some(if kind == CharacterStyle then t.(characterStyle := Merge(t.characterStyle, props))
                      else t.(paragraphStyle := Merge(t.paragraphStyle, props))))
  }

  /** Why styling a layer would fail, or None. */
  function TextError(s: Structure, kind: StyleKind, id: int): (r: Option<string>)
    ensures r.None? <==> id in s.elements && s.elements[id].text.Some?
  {
    if id !in s.elements then Some("Cannot read property 'text' of null")
    else if s.elements[id].text.None? then Some("Cannot read property '" + StyleName(kind) + "' of null")
    else None
  }

  /**
   * Merge properties into one text style of every listed layer
   * (setCharacterStyleProperties and setParagraphStyleProperties). The
   * first listed layer that is missing or has no text makes the edit fail.
   */
  function SetTextStyleProperties(s: Structure, kind: StyleKind, ids: seq<int>, props: Props): (r: Result<Structure>)
    ensures r.Err? <==> exists i :: 0 <= i < |ids| && TextError(s, kind, ids[i]).Some?
    ensures r.Ok? ==> r.value.index == s.index && r.value.elements.Keys == s.elements.Keys
    ensures r.Ok? ==> forall k :: k in s.elements ==>
      r.value.elements[k] == if k in ids then MergeStyle(s.elements[k], kind, props) else s.elements[k]
    ensures r.Ok? ==> forall k :: k in ids ==> r.value.elements[k].text.Some?
  {
    match FirstError(ids, id => TextError(s, kind, id))
    case Some(e) => Err(e)
    case None =>
      assert forall k :: k in ids ==> TextError(s, kind, k).None? by {
        forall k | k in ids ensures TextError(s, kind, k).None? {
          var i :| 0 <= i < |ids| && ids[i] == k;
        }
      }
      Ok(Structure(PatchEach(s.elements, ids, e => MergeStyle(e, kind, props)), s.index))
  }
}
