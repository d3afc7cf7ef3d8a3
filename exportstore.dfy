/**
 * The export store: the export assets of every open document, keyed by
 * document id, replaced when a document is described afresh and merged
 * when an asset changes.
 */
module ExportStores {
  import opened Common
  import opened ExportAssets
  import opened ExportDocuments

  /** A document id is unusable when it is absent or zero, the falsy numbers. */
  function ValidDocumentID(documentID: Option<int>): (r: bool)
    ensures r <==> documentID != None && documentID != Some(0)
  {
    documentID.Some? && documentID.value != 0
  }

  /** An update's exports are unusable when absent or when they carry neither root nor layer props. */
  function ValidDocumentExports(documentExports: Option<ExportsProps>): (r: bool)
    ensures r ==> documentExports.Some?
    ensures documentExports.Some? && documentExports.value.rootExports.None? && documentExports.value.layerExportsMap.None? ==> !r
    ensures documentExports.Some? && (documentExports.value.rootExports.Some? || documentExports.value.layerExportsMap.Some?) ==> r
  {
    documentExports.Some? && (documentExports.value.rootExports.Some? || documentExports.value.layerExportsMap.Some?)
  }

  const InvalidDocumentID := "Can not update an asset without a valid documentID (%s)"
  const InvalidDocumentExports := "Can not update an asset without a valid documentExports: %O"

  class ExportStore {
    /** The exports of each document, by document id. */
    var documentExportsMap: map<int, DocumentExports>
    /** How many change notifications the store has sent. */
    ghost var changes: nat

    /** The store starts with no documents. */
    constructor ()
      ensures documentExportsMap == map[] && changes == 0
    {
      documentExportsMap := map[];
      changes := 0;
    }

    /** documentHasExports: the store holds exports for the document. */
    function DocumentHasExports(documentID: int): (r: bool)
      reads this
      ensures r <==> documentID in documentExportsMap
    {
      documentID in documentExportsMap
    }

    /** getDocumentExports: the document's exports, or nothing when the store has none. */
    function GetDocumentExports(documentID: int): (r: Option<DocumentExports>)
      reads this
      ensures r.Some? <==> DocumentHasExports(documentID)
      ensures r.Some? ==> r.value == documentExportsMap[documentID]
    {
      if documentID in documentExportsMap then Some(documentExportsMap[documentID]) else None
    }

    /** _documentUpdated: the document's exports become those its descriptor lists; other documents keep theirs. */
    method DocumentUpdated(payload: DocumentPayload)
      modifies this
      ensures documentExportsMap == old(documentExportsMap)[payload.documentID := Described(payload)]
      ensures changes == old(changes)
    {
      var documentExports := FromDescriptors(payload);
      documentExportsMap := documentExportsMap[payload.documentID := documentExports];
    }

    /**
     * _assetUpdated: an update without a usable document id or without
     * usable exports fails and changes nothing; otherwise the update is
     * merged into the document's exports (a fresh record when there are
     * none), and the store is written, with one change notification,
     * exactly when the merge gives something different. A merge that fails
     * fails the update and changes nothing.
     */
    method AssetUpdated(documentID: Option<int>, documentExports: Option<ExportsProps>) returns (r: Outcome)
      modifies this
      ensures !ValidDocumentID(documentID) ==> r == Fail(InvalidDocumentID)
      ensures ValidDocumentID(documentID) && !ValidDocumentExports(documentExports) ==> r == Fail(InvalidDocumentExports)
      ensures r.Fail? ==> documentExportsMap == old(documentExportsMap) && changes == old(changes)
      ensures ValidDocumentID(documentID) && ValidDocumentExports(documentExports) ==>
        var cur := if documentID.value in old(documentExportsMap) then old(documentExportsMap)[documentID.value] else Empty();
        var next := Merged(cur, documentExports.value);
        && (r.Pass? <==> next.Ok?)
        && (next.Ok? && next.value != cur ==>
              documentExportsMap == old(documentExportsMap)[documentID.value := next.value] && changes == old(changes) + 1)
        && (next.Ok? && next.value == cur ==> documentExportsMap == old(documentExportsMap) && changes == old(changes))
    {
      if !ValidDocumentID(documentID) {
        return Fail(InvalidDocumentID);
      } else if !ValidDocumentExports(documentExports) {
        return Fail(InvalidDocumentExports);
      }
      var id := documentID.value;
      var found := GetDocumentExports(id);
      var cur := if found.Some? then found.value else Empty();
      var next := FancyMerge(cur, documentExports.value);
      if next.Err? {
        return Fail(next.error);
      }
      if cur != next.value {
        documentExportsMap := documentExportsMap[id := next.value];
        changes := changes + 1;
      }
      r := Pass;
    }

    /** _deleteExports: the store forgets every document. */
    method DeleteExports()
      modifies this
      ensures documentExportsMap == map[] && changes == old(changes)
      ensures forall id :: !DocumentHasExports(id)
    {
      documentExportsMap := map[];
    }
  }

  /**
   * The same asset update twice in a row, when every props object names a
   * scale: the second one succeeds when the first did, and neither writes
   * nor notifies again.
   */
  method RepeatedAssetUpdate(store: ExportStore, documentID: Option<int>, documentExports: Option<ExportsProps>)
    returns (first: Outcome, second: Outcome)
    modifies store
    requires documentExports.Some? ==> Scaled(documentExports.value)
    ensures first.Pass? ==> second.Pass?
    ensures store.changes <= old(store.changes) + 1
  {
    first := store.AssetUpdated(documentID, documentExports);
    ghost var afterFirst := store.documentExportsMap;
    ghost var changesAfterFirst := store.changes;
    if first.Pass? {
      var id := documentID.value;
      var cur := if id in old(store.documentExportsMap) then old(store.documentExportsMap)[id] else Empty();
      MergedIdempotent(cur, documentExports.value);
      assert afterFirst[id] == Merged(cur, documentExports.value).value;
    }
    second := store.AssetUpdated(documentID, documentExports);
  }

  /** A document described afresh and then read back gives the descriptor's exports. */
  method DescribeThenRead(store: ExportStore, payload: DocumentPayload) returns (r: Option<DocumentExports>)
    modifies store
    ensures store.DocumentHasExports(payload.documentID)
    ensures r == Some(Described(payload))
  {
    store.DocumentUpdated(payload);
    r := store.GetDocumentExports(payload.documentID);
  }
}
