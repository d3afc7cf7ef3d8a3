/**
 * The keys of the 3-D structure record. An Immutable record takes a deep
 * merge only under a key it declares, and this one declares `elements`,
 * `index` and `materials`. The layer mutators kept from the 2-D layer
 * structure merge their patches under `layers`, which it does not declare;
 * the mutators of this model patch `elements`, as evidently intended.
 */
module RecordKeys {
  import opened Common
  import opened ElementModel
  import opened ElementStructure
  import opened LayerEdits
  import opened PropertyEdits

  /** The key a batch of per-layer patches is merged under. */
  datatype PatchKey = ElementsKey | LayersKey

  /** Whether the structure record declares the key. */
  predicate Declared(k: PatchKey) {
    k == ElementsKey
  }

  /** The error an Immutable record raises for the undeclared key. */
  const UnknownLayersKey := "Cannot set unknown key \"layers\" on Record"

  /**
   * A deep merge of the patch f on the listed layers under key k: refused
   * for a key the record does not declare; otherwise the listed layers the
   * structure holds are patched and everything else is kept.
   */
  function MergeDeepUnder(s: Structure, k: PatchKey, ids: seq<int>, f: Element -> Element): (r: Result<Structure>)
    ensures r.Ok? <==> Declared(k)
    ensures r.Err? ==> r.error == UnknownLayersKey
    ensures r.Ok? ==>
      && r.value.index == s.index
      && r.value.elements.Keys == s.elements.Keys
      && (forall id :: id in r.value.elements ==>
            r.value.elements[id] == if id in ids then f(s.elements[id]) else s.elements[id])
  {
    match k
    case ElementsKey => Ok(Structure(PatchEach(s.elements, ids, f), s.index))
    case LayersKey => Err(UnknownLayersKey)
  }

  /**
   * setLayersProportional as written: the flags are merged under `layers`,
   * so every call fails, whatever the structure and the ids.
   */
  function SetLayersProportionalAsWritten(s: Structure, ids: seq<int>, proportional: bool): (r: Result<Structure>)
    ensures r.Err? && r.error == UnknownLayersKey
  {
    MergeDeepUnder(s, LayersKey, ids, (e: Element) => e.(proportionalScaling := proportional))
  }

  /**
   * The same patches merged under `elements` are the model's mutators: the
   * proportional flag, the radii and the basic properties succeed there
   * and give exactly the corrected results, where `layers` refuses them.
   */
  lemma ElementsKeyIsIntended(s: Structure, ids: seq<int>, proportional: bool, radii: Props, p: BasicProps)
    ensures SetLayersProportionalAsWritten(s, ids, proportional).Err?
    ensures MergeDeepUnder(s, ElementsKey, ids, (e: Element) => e.(proportionalScaling := proportional))
      == Ok(SetLayersProportional(s, ids, proportional))
    ensures MergeDeepUnder(s, ElementsKey, ids, (e: Element) => e.(radii := Some(radii)))
      == Ok(SetBorderRadii(s, ids, radii))
    ensures MergeDeepUnder(s, ElementsKey, ids, e => ApplyProps(e, p)) == Ok(SetProperties(s, ids, p))
  {
  }
}
