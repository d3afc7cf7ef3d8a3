/**
 * The element (layer) record that the structure stores. The record itself is
 * defined outside the modelled files; only the fields the structure, the tree
 * builder and the layer-panel rules read or write are kept here.
 */
module ElementModel {
  import opened Common

  /** The element kinds the core distinguishes; every other kind is Other(code). */
  datatype Kind = Group | GroupEnd | Pixel | Adjustment | SmartObject | Background | Other(code: int)

  /** A property value inside a property bag. */
  datatype Value = IntValue(i: int) | BoolValue(b: bool) | TextValue(t: string)

  /**
   * A property bag: the model of a fill, a stroke, a layer effect or a text
   * style, whose own record types are not part of this model.
   */
  type Props = map<string, Value>

  /** Immutable's shallow merge: the patch's keys override the base's. */
  function Merge(base: Props, patch: Props): (r: Props)
    ensures r.Keys == base.Keys + patch.Keys
    ensures forall k :: k in patch ==> r[k] == patch[k]
    ensures forall k :: k in base && k !in patch ==> r[k] == base[k]
  {
    base + patch
  }

  /** An axis-aligned rectangle with integer edges. */
  datatype Bounds = Bounds(top: int, left: int, bottom: int, right: int) {
    function Width(): int { right - left }
    function Height(): int { bottom - top }
    function Area(): int { Width() * Height() }

    /** Move the top-left corner to (x, y), keeping the size. */
    function UpdatePosition(x: int, y: int): (b: Bounds)
      ensures b.left == x && b.top == y
      ensures b.Width() == Width() && b.Height() == Height()
    {
      Bounds(y, x, y + Height(), x + Width())
    }

    /** Put the top-left corner at (x, y) and the size to w by h. */
    function UpdateSizeAndPosition(x: int, y: int, w: int, h: int): (b: Bounds)
      ensures b.left == x && b.top == y && b.Width() == w && b.Height() == h
    {
      Bounds(y, x, y + h, x + w)
    }
  }

  /** A text element's two style bags. */
  datatype TextStyle = TextStyle(characterStyle: Props, paragraphStyle: Props)

  /**
   * An element. A list of fills or strokes may itself be missing (None), and
   * an entry of such a list, or of a per-type list of layer effects, may be
   * an empty slot (None), as a JavaScript list with holes has.
   */
  datatype Element = Element(
    id: int,
    name: string,
    kind: Kind,
    isParent: bool,
    selected: bool,
    visible: bool,
    expanded: bool,
    locked: bool,
    isBackground: bool,
    isArtboard: bool,
    isLinked: bool,
    bounds: Option<Bounds>,
    fills: Option<seq<Option<Props>>>,
    strokes: Option<seq<Option<Props>>>,
    layerEffects: map<string, seq<Option<Props>>>,
    usedToHaveLayerEffect: bool,
    text: Option<TextStyle>,
    proportionalScaling: bool,
    radii: Option<Props>)

  /** The tree builder opens a level for a GROUP element and for any element flagged as a parent. */
  predicate OpensLevel(e: Element) {
    e.kind == Group || e.isParent
  }

  /**
   * An element with the given identity and kind and every other field at a
   * neutral value: visible, expanded, unselected, unlocked, no bounds, no
   * fills, strokes, effects, text or radii.
   */
  function NewElement(id: int, name: string, kind: Kind, isParent: bool): (e: Element)
    ensures e.id == id && e.kind == kind && e.isParent == isParent && !e.selected
  {
    Element(id, name, kind, isParent, false, true, true, false, false, false, false,
            None, None, None, map[], false, None, false, None)
  }
}
