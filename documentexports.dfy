/**
 * A document's export assets: the assets of the document itself and, per
 * layer, the assets of each layer; how they are built from a document
 * descriptor and how an asset update is merged into them.
 */
module ExportDocuments {
  import opened Common
  import opened ExportAssets

  /**
   * The per-layer exports of a document: null on a fresh record, the empty
   * list that a merge without layer props leaves behind, or a map from
   * layer id to that layer's assets.
   */
  datatype LayerExports = NoLayers | EmptyList | ByLayer(m: map<int, seq<ExportAsset>>)

  /** The exports of one document; the root exports are null on a fresh record. */
  datatype DocumentExports = DocumentExports(rootExports: Option<seq<ExportAsset>>, layerExports: LayerExports)

  /** A fresh record: neither root nor layer exports. */
  function Empty(): (d: DocumentExports)
    ensures d.rootExports.None? && d.layerExports.NoLayers?
  {
    DocumentExports(None, NoLayers)
  }

  /**
   * What an asset update carries: props for one asset of the document, and
   * props for one asset per layer; either may be absent, and a layer's
   * props may be null.
   */
  datatype ExportsProps = ExportsProps(rootExports: Option<AssetProps>, layerExportsMap: Option<map<int, Option<AssetProps>>>)

  /** A list that may be null, read as a list. */
  function OrEmpty(l: Option<seq<ExportAsset>>): (r: seq<ExportAsset>)
    ensures l.None? ==> r == []
    ensures l.Some? ==> r == l.value
  {
    if l.Some? then l.value else []
  }

  /** A layer's list in a map, or null when the layer has none. */
  function Lookup(m: map<int, seq<ExportAsset>>, k: int): (r: Option<seq<ExportAsset>>)
    ensures k in m <==> r.Some?
    ensures k in m ==> r.value == m[k]
  {
    if k in m then Some(m[k]) else None
  }

  /** layerExportsArray: a layer's assets, empty when it has none; a null layer map fails. */
  function LayerExportsArray(d: DocumentExports, layerID: int): (r: Result<seq<ExportAsset>>)
    ensures r.Err? <==> d.layerExports.NoLayers?
    ensures d.layerExports.ByLayer? ==> r == Ok(OrEmpty(Lookup(d.layerExports.m, layerID)))
    ensures d.layerExports.EmptyList? ==> r == Ok([])
  {
    match d.layerExports
    case NoLayers => Err("Cannot read property 'get' of null")
    case EmptyList => Ok([])
    case ByLayer(m) => if layerID in m && |m[layerID]| > 0 then Ok(m[layerID]) else Ok([])
  }

  /** rootExportsArray: the document's own assets, empty when there are none. */
  function RootExportsArray(d: DocumentExports): (r: seq<ExportAsset>)
    ensures r == OrEmpty(d.rootExports)
  {
    if d.rootExports.Some? && |d.rootExports.value| > 0 then d.rootExports.value else []
  }

  // ----- building from a document descriptor -----

  /** One layer of a document descriptor: its id and the props of its assets, if it lists any. */
  datatype LayerDescriptor = LayerDescriptor(layerID: int, assetExports: Option<seq<AssetProps>>)

  /** A document descriptor: the document's id and its layers, if it lists them. */
  datatype DocumentPayload = DocumentPayload(documentID: int, layers: Option<seq<LayerDescriptor>>)

  /** The records built from a list of props, one per props object, in order. */
  function FromEach(ps: seq<AssetProps>): (r: seq<ExportAsset>)
    ensures |r| == |ps| && forall i :: 0 <= i < |ps| ==> r[i] == FromProps(ps[i])
  {
    if ps == [] then [] else FromEach(ps[..|ps| - 1]) + [FromProps(ps[|ps| - 1])]
  }

  /** A layer's assets as the descriptor lists them; none when it lists none. */
  function AssetsOf(l: LayerDescriptor): (r: seq<ExportAsset>)
    ensures l.assetExports.None? ==> r == []
    ensures l.assetExports.Some? ==> r == FromEach(l.assetExports.value)
  {
    if l.assetExports.Some? then FromEach(l.assetExports.value) else []
  }

  /** The layer at i is the last one in the list with its id. */
  predicate LastWithId(layers: seq<LayerDescriptor>, i: int) {
    0 <= i < |layers| && forall j :: i < j < |layers| ==> layers[j].layerID != layers[i].layerID
  }

  /** The ids of the listed layers. */
  function LayerIds(layers: seq<LayerDescriptor>): (r: set<int>)
    ensures forall k :: k in r ==> exists i :: 0 <= i < |layers| && layers[i].layerID == k
  {
    if layers == [] then {}
    else
      var init := layers[..|layers| - 1];
      assert forall i :: 0 <= i < |init| ==> init[i] == layers[i];
      LayerIds(init) + {layers[|layers| - 1].layerID}
  }

  /** Every listed layer's id is among the ids. */
  lemma {:induction false} LayerIdsComplete(layers: seq<LayerDescriptor>, i: int)
    requires 0 <= i < |layers|
    ensures layers[i].layerID in LayerIds(layers)
  {
    if i < |layers| - 1 {
      var init := layers[..|layers| - 1];
      assert init[i] == layers[i];
      LayerIdsComplete(init, i);
    }
  }

  /** The layer map of a descriptor: an entry for every listed layer; later layers with the same id win. */
  function LayerMap(layers: seq<LayerDescriptor>): (r: map<int, seq<ExportAsset>>)
    ensures r.Keys == LayerIds(layers)
  {
    if layers == [] then map[]
    else LayerMap(layers[..|layers| - 1])[layers[|layers| - 1].layerID := AssetsOf(layers[|layers| - 1])]
  }

  /** A layer's entry holds the assets of the last layer listed with its id. */
  lemma {:induction false} LayerMapLast(layers: seq<LayerDescriptor>, i: int)
    requires LastWithId(layers, i)
    ensures layers[i].layerID in LayerMap(layers) && LayerMap(layers)[layers[i].layerID] == AssetsOf(layers[i])
  {
    LayerIdsComplete(layers, i);
    if i < |layers| - 1 {
      var init := layers[..|layers| - 1];
      assert init[i] == layers[i];
      assert LastWithId(init, i) by {
        forall j | i < j < |init| ensures init[j].layerID != init[i].layerID {
          assert init[j] == layers[j];
        }
      }
      LayerMapLast(init, i);
    }
  }

  /** fromDescriptors: no root exports, and the descriptor's layer map; a missing layer list gives an empty map. */
  function Described(payload: DocumentPayload): (d: DocumentExports)
    ensures d.rootExports.None? && d.layerExports.ByLayer?
    ensures payload.layers.None? ==> d.layerExports.m == map[]
  {
    DocumentExports(None, ByLayer(LayerMap(if payload.layers.Some? then payload.layers.value else [])))
  }

  /** The records of one layer, pushed one props object at a time. */
  method BuildAssets(ps: seq<AssetProps>) returns (layerExports: seq<ExportAsset>)
    ensures layerExports == FromEach(ps)
  {
    layerExports := [];
    var j := 0;
    while j < |ps|
      invariant 0 <= j <= |ps|
      invariant layerExports == FromEach(ps[..j])
    {
      assert ps[..j + 1][..j] == ps[..j];
      layerExports := layerExports + [FromProps(ps[j])];
      j := j + 1;
    }
    assert ps[..j] == ps;
  }

  /** Extending the list by one layer sets that layer's entry. */
  lemma LayerMapStep(layers: seq<LayerDescriptor>, i: int)
    requires 0 <= i < |layers|
    ensures LayerMap(layers[..i + 1]) == LayerMap(layers[..i])[layers[i].layerID := AssetsOf(layers[i])]
  {
    assert layers[..i + 1][..i] == layers[..i];
  }

  /** fromDescriptors as the source runs it: one pass over the layers, and one over each layer's assets. */
  method FromDescriptors(payload: DocumentPayload) returns (d: DocumentExports)
    ensures d == Described(payload)
  {
    var layers := if payload.layers.Some? then payload.layers.value else [];
    var layerExportsMap: map<int, seq<ExportAsset>> := map[];
    var i := 0;
    while i < |layers|
      invariant 0 <= i <= |layers|
      invariant layerExportsMap == LayerMap(layers[..i])
    {
      var layer := layers[i];
      var layerExports: seq<ExportAsset> := [];
      if layer.assetExports.Some? && |layer.assetExports.value| > 0 {
        layerExports := BuildAssets(layer.assetExports.value);
      }
      LayerMapStep(layers, i);
      layerExportsMap := layerExportsMap[layer.layerID := layerExports];
      i := i + 1;
    }
    assert layers[..i] == layers;
    d := DocumentExports(None, ByLayer(layerExportsMap));
  }

  /**
   * After fromDescriptors, a layer's export list is that of the last
   * descriptor listing it, and empty for a layer no descriptor lists.
   */
  lemma DescribedLayerArray(payload: DocumentPayload, layerID: int)
    requires payload.layers.Some?
    ensures var r := LayerExportsArray(Described(payload), layerID);
      && r.Ok?
      && (forall i :: LastWithId(payload.layers.value, i) && payload.layers.value[i].layerID == layerID ==>
            r.value == AssetsOf(payload.layers.value[i]))
      && ((forall i :: 0 <= i < |payload.layers.value| ==> payload.layers.value[i].layerID != layerID) ==> r.value == [])
  {
    var layers := payload.layers.value;
    forall i | LastWithId(layers, i) && layers[i].layerID == layerID
      ensures LayerExportsArray(Described(payload), layerID).value == AssetsOf(layers[i])
    {
      LayerMapLast(layers, i);
    }
  }

  // ----- upserting assets -----

  /** The asset at i is the first in the list with the given scale: every asset with that scale is at i or later. */
  function FirstWithScale(l: seq<ExportAsset>, i: int, scale: Option<int>): (r: bool)
    ensures r ==> 0 <= i < |l| && forall j :: 0 <= j < |l| && Some(l[j].scale) == scale ==> i <= j
  {
    0 <= i < |l| && Some(l[i].scale) == scale && forall j :: 0 <= j < i ==> Some(l[j].scale) != scale
  }

  /** The position of the first asset with the given scale, if any has it. */
  function FindScale(l: seq<ExportAsset>, scale: Option<int>): (r: Option<nat>)
    ensures r.Some? ==> FirstWithScale(l, r.value, scale)
    ensures r.None? ==> forall j :: 0 <= j < |l| ==> Some(l[j].scale) != scale
  {
    if l == [] then None
    else if Some(l[0].scale) == scale then Some(0)
    else
      var rest := FindScale(l[1..], scale);
      if rest.Some? then Some(rest.value + 1) else None
  }

  /**
   * _upsertList: a null list counts as empty; without props the list is
   * returned as it is; the first asset with the props' scale has the props
   * merged into it in place; with no such asset a record built from the
   * props is appended.
   */
  function UpsertList(list: Option<seq<ExportAsset>>, props: Option<AssetProps>): (r: seq<ExportAsset>)
    ensures props.None? ==> r == OrEmpty(list)
    ensures |OrEmpty(list)| <= |r| <= |OrEmpty(list)| + 1
  {
    var base := OrEmpty(list);
    if props.None? then base
    else
      var found := FindScale(base, props.value.scale);
      if found.Some? then base[found.value := Merge(base[found.value], props.value)]
      else base + [FromProps(props.value)]
  }

  /**
   * The two cases of an upsert with props: an asset with the props' scale
   * is merged in place, the first such one and no other, and the length is
   * kept; without one, a new record is appended.
   */
  lemma UpsertCases(list: Option<seq<ExportAsset>>, p: AssetProps)
    ensures forall i :: FirstWithScale(OrEmpty(list), i, p.scale) ==>
      var r := UpsertList(list, Some(p));
      && |r| == |OrEmpty(list)|
      && r[i] == Merge(OrEmpty(list)[i], p)
      && (forall j :: 0 <= j < |r| && j != i ==> r[j] == OrEmpty(list)[j])
    ensures (forall j :: 0 <= j < |OrEmpty(list)| ==> Some(OrEmpty(list)[j].scale) != p.scale) ==>
      UpsertList(list, Some(p)) == OrEmpty(list) + [FromProps(p)]
  {
  }

  /** Upserting the same props twice is upserting them once, when the props name a scale. */
  lemma UpsertIdempotent(list: Option<seq<ExportAsset>>, props: Option<AssetProps>)
    requires props.Some? ==> props.value.scale.Some?
    ensures UpsertList(Some(UpsertList(list, props)), props) == UpsertList(list, props)
  {
    if props.Some? {
      var base, p := OrEmpty(list), props.value;
      var once := UpsertList(list, props);
      var found := FindScale(base, p.scale);
      if found.Some? {
        var i := found.value;
        assert FirstWithScale(once, i, p.scale);
        MergeIdempotent(base[i], p);
        assert once[i := Merge(once[i], p)] == once;
      } else {
        assert FirstWithScale(once, |base|, p.scale);
        MergeIdempotent(Defaults(), p);
        assert once[|base| := Merge(once[|base|], p)] == once;
      }
    }
  }

  /** Without a scale in the props, every upsert appends another record. */
  lemma UpsertWithoutScaleAppends(list: Option<seq<ExportAsset>>, p: AssetProps)
    requires p.scale.None?
    ensures UpsertList(list, Some(p)) == OrEmpty(list) + [FromProps(p)]
    ensures |UpsertList(Some(UpsertList(list, Some(p))), Some(p))| == |OrEmpty(list)| + 2
  {
  }

  // ----- merging an update -----

  /** The layer lists after an update: layers the props name are upserted, the others keep their lists. */
  function MergedLayers(m: map<int, seq<ExportAsset>>, pm: map<int, Option<AssetProps>>): (r: map<int, seq<ExportAsset>>)
    ensures r.Keys == m.Keys + pm.Keys
    ensures forall k :: k in pm ==> r[k] == UpsertList(Lookup(m, k), pm[k])
    ensures forall k :: k in m && k !in pm ==> r[k] == m[k]
  {
    m + map k | k in pm :: UpsertList(Lookup(m, k), pm[k])
  }

  /** The error a merge of layer props into a null layer map raises: at the first lookup, or at the final merge when there is nothing to look up. */
  function NullLayersError(pm: map<int, Option<AssetProps>>): (r: string)
    ensures pm == map[] ==> r == "Cannot read property 'merge' of null"
    ensures pm != map[] ==> r == "Cannot read property 'get' of null"
  {
    if pm == map[] then "Cannot read property 'merge' of null" else "Cannot read property 'get' of null"
  }

  /** The layer map a merge starts from; the empty-list placeholder is read as an empty map. */
  function LayerMapOf(l: LayerExports): (r: map<int, seq<ExportAsset>>)
    requires !l.NoLayers?
    ensures l.ByLayer? ==> r == l.m
    ensures l.EmptyList? ==> r == map[]
  {
    if l.ByLayer? then l.m else map[]
  }

  /**
   * fancyMerge as written: the root exports are upserted; layer props are
   * upserted into the layer map; and without layer props the layer map is
   * replaced by an empty list.
   */
  function MergedAsWritten(d: DocumentExports, p: ExportsProps): (r: Result<DocumentExports>)
    ensures r.Err? <==> p.layerExportsMap.Some? && d.layerExports.NoLayers?
    ensures r.Err? ==> r.error == NullLayersError(p.layerExportsMap.value)
    ensures r.Ok? ==> r.value.rootExports == Some(UpsertList(d.rootExports, p.rootExports))
    ensures r.Ok? && p.layerExportsMap.None? ==> r.value.layerExports == EmptyList
    ensures r.Ok? && p.layerExportsMap.Some? ==>
      r.value.layerExports == ByLayer(MergedLayers(LayerMapOf(d.layerExports), p.layerExportsMap.value))
  {
    var root := UpsertList(d.rootExports, p.rootExports);
    if p.layerExportsMap.None? then Ok(DocumentExports(Some(root), EmptyList))
    else if d.layerExports.NoLayers? then Err(NullLayersError(p.layerExportsMap.value))
    else Ok(DocumentExports(Some(root), ByLayer(MergedLayers(LayerMapOf(d.layerExports), p.layerExportsMap.value))))
  }

  /**
   * fancyMerge with its evident intent: as written, except that an update
   * without layer props keeps the layer map as it is.
   */
  function Merged(d: DocumentExports, p: ExportsProps): (r: Result<DocumentExports>)
    ensures r.Err? <==> p.layerExportsMap.Some? && d.layerExports.NoLayers?
    ensures r.Err? ==> r.error == NullLayersError(p.layerExportsMap.value)
    ensures r.Ok? ==> r.value.rootExports == Some(UpsertList(d.rootExports, p.rootExports))
    ensures r.Ok? && p.layerExportsMap.None? ==> r.value.layerExports == d.layerExports
    ensures r.Ok? && p.layerExportsMap.Some? ==>
      r.value.layerExports == ByLayer(MergedLayers(LayerMapOf(d.layerExports), p.layerExportsMap.value))
  {
    var root := UpsertList(d.rootExports, p.rootExports);
    if p.layerExportsMap.None? then Ok(DocumentExports(Some(root), d.layerExports))
    else if d.layerExports.NoLayers? then Err(NullLayersError(p.layerExportsMap.value))
    else Ok(DocumentExports(Some(root), ByLayer(MergedLayers(LayerMapOf(d.layerExports), p.layerExportsMap.value))))
  }

  /** Every asset props object of an update names a scale. */
  predicate Scaled(p: ExportsProps) {
    && (p.rootExports.Some? ==> p.rootExports.value.scale.Some?)
    && (p.layerExportsMap.Some? ==>
          forall k :: k in p.layerExportsMap.value && p.layerExportsMap.value[k].Some? ==>
            p.layerExportsMap.value[k].value.scale.Some?)
  }

  /** Merging an update whose props all name a scale a second time changes nothing. */
  lemma MergedIdempotent(d: DocumentExports, p: ExportsProps)
    requires Scaled(p) && Merged(d, p).Ok?
    ensures Merged(Merged(d, p).value, p) == Merged(d, p)
  {
    var once := Merged(d, p).value;
    UpsertIdempotent(d.rootExports, p.rootExports);
    if p.layerExportsMap.Some? {
      var pm := p.layerExportsMap.value;
      var m1 := LayerMapOf(once.layerExports);
      var m2 := MergedLayers(m1, pm);
      forall k | k in pm
        ensures m2[k] == m1[k]
      {
        UpsertIdempotent(Lookup(LayerMapOf(d.layerExports), k), pm[k]);
      }
      assert m2 == m1;
    }
  }

  /** After a merge with layer props, a named layer's list is the upsert of its old list. */
  lemma MergedLayerArray(d: DocumentExports, p: ExportsProps, layerID: int)
    requires Merged(d, p).Ok? && p.layerExportsMap.Some? && layerID in p.layerExportsMap.value
    ensures LayerExportsArray(Merged(d, p).value, layerID) ==
      Ok(UpsertList(Lookup(LayerMapOf(d.layerExports), layerID), p.layerExportsMap.value[layerID]))
  {
  }

  /** A non-empty set has a member. */
  lemma HasMember(keys: set<int>)
    requires keys != {}
    ensures exists k :: k in keys
  {
    if forall k :: k !in keys {
      assert false;
    }
  }

  /** The upserted list of every layer the props name, gathered one layer at a time. */
  method GatherLayerProps(m: map<int, seq<ExportAsset>>, pm: map<int, Option<AssetProps>>) returns (toMerge: map<int, seq<ExportAsset>>)
    ensures toMerge.Keys == pm.Keys
    ensures forall k :: k in toMerge ==> toMerge[k] == UpsertList(Lookup(m, k), pm[k])
  {
    toMerge := map[];
    var rest := pm.Keys;
    while rest != {}
      invariant rest <= pm.Keys
      invariant toMerge.Keys == pm.Keys - rest
      invariant forall k :: k in toMerge ==> toMerge[k] == UpsertList(Lookup(m, k), pm[k])
      decreases |rest|
    {
      HasMember(rest);
      var k :| k in rest;
      toMerge := toMerge[k := UpsertList(Lookup(m, k), pm[k])];
      rest := rest - {k};
    }
  }

  /** Laying the gathered lists over the layer map gives the merged layers. */
  lemma OverlayIsMerged(m: map<int, seq<ExportAsset>>, pm: map<int, Option<AssetProps>>, toMerge: map<int, seq<ExportAsset>>)
    requires toMerge.Keys == pm.Keys
    requires forall k :: k in toMerge ==> toMerge[k] == UpsertList(Lookup(m, k), pm[k])
    ensures m + toMerge == MergedLayers(m, pm)
  {
  }

  /**
   * fancyMerge as the source runs it: the layer props are gathered into a
   * map of upserted lists one layer at a time, then laid over the layer map.
   */
  method FancyMerge(d: DocumentExports, p: ExportsProps) returns (r: Result<DocumentExports>)
    ensures r == Merged(d, p)
  {
    var root := UpsertList(d.rootExports, p.rootExports);
    if p.layerExportsMap.None? {
      return Ok(DocumentExports(Some(root), d.layerExports));
    }
    var pm := p.layerExportsMap.value;
    if d.layerExports.NoLayers? {
      return Err(NullLayersError(pm));
    }
    var m := LayerMapOf(d.layerExports);
    var toMerge := GatherLayerProps(m, pm);
    OverlayIsMerged(m, pm, toMerge);
    r := Ok(DocumentExports(Some(root), ByLayer(m + toMerge)));
  }

  /** A document with exports for layer 7, and an update of the document's own asset at scale 2. */
  const Layer7: DocumentExports := DocumentExports(None, ByLayer(map[7 := [Defaults()]]))
  const RootOnly: ExportsProps := ExportsProps(Some(AssetProps(None, Some(200), None, None)), None)

  /**
   * An update of the document's own assets, as written, drops the layers'
   * exports; with the layer map kept they survive.
   */
  lemma RootUpdateDropsLayerExports()
    ensures LayerExportsArray(Layer7, 7) == Ok([Defaults()])
    ensures MergedAsWritten(Layer7, RootOnly).Ok?
    ensures LayerExportsArray(MergedAsWritten(Layer7, RootOnly).value, 7) == Ok([])
    ensures Merged(Layer7, RootOnly).Ok?
    ensures LayerExportsArray(Merged(Layer7, RootOnly).value, 7) == Ok([Defaults()])
  {
  }
}
