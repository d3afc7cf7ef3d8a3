/**
 * The structural edits of an element structure: selection, order, deletion
 * and grouping. Every edit returns a new structure; the ones the source
 * lets throw return Err with the source's message.
 *
 * Many of these edits are written in the source against a `layers` map
 * that the structure record does not declare (it declares `elements`);
 * here both names stand for the one element map.
 */
module StructureEdits {
  import opened Common
  import opened ElementModel
  import opened ElementStructure

  /** A valid structure indexes no more ids than its map holds. */
  lemma IndexFitsMap(s: Structure)
    ensures Valid(s) ==> |s.index| <= |s.elements|
  {
    if Valid(s) {
      NoDupCard(s.index);
      SubsetCard(Elems(s.index), s.elements.Keys);
    }
  }

  /** The map without the given keys. */
  function RemoveKeys(m: map<int, Element>, ks: seq<int>): (r: map<int, Element>)
    ensures forall k :: k in r <==> k in m && k !in ks
    ensures forall k :: k in r ==> r[k] == m[k]
  {
    map k | k in m && k !in ks :: m[k]
  }

  // ----- updateSelection -----

  /** Every element selected exactly when its id is in the set; nothing else changes. */
  function UpdateSelection(s: Structure, selectedIDs: set<int>): (r: Structure)
    ensures r.index == s.index && r.elements.Keys == s.elements.Keys
    ensures forall k :: k in r.elements ==>
      r.elements[k].selected == (s.elements[k].id in selectedIDs) &&
      r.elements[k] == s.elements[k].(selected := r.elements[k].selected)
  {
    var elements := map k | k in s.elements :: s.elements[k].(selected := s.elements[k].id in selectedIDs);
    Structure(elements, s.index)
  }

  /** Selecting the same set twice is selecting it once. */
  lemma UpdateSelectionIdempotent(s: Structure, selectedIDs: set<int>)
    ensures UpdateSelection(UpdateSelection(s, selectedIDs), selectedIDs) == UpdateSelection(s, selectedIDs)
  {
  }

  /** A selection update keeps a structure valid, and the selection is then exactly the indexed elements named in the set. */
  lemma UpdateSelectionSelected(s: Structure, selectedIDs: set<int>)
    requires Valid(s)
    ensures Valid(UpdateSelection(s, selectedIDs))
    ensures forall e :: e in Selected(UpdateSelection(s, selectedIDs)) <==>
      e.id in s.index && e.id in selectedIDs && e == s.elements[e.id].(selected := true)
  {
    var r := UpdateSelection(s, selectedIDs);
    assert Valid(r);
    forall e ensures e in Selected(r) <==> e.id in s.index && e.id in selectedIDs && e == s.elements[e.id].(selected := true) {
      if e.id in s.index && e.id in selectedIDs && e == s.elements[e.id].(selected := true) {
        var i :| 0 <= i < |s.index| && s.index[i] == e.id;
        assert All(r)[i] == e;
      }
    }
  }

  // ----- updateOrder -----

  /**
   * Reorder: the new index is the given ids, reversed. More ids than the
   * map holds is an error; fewer ids than the old index drops every
   * indexed id that is no longer listed from the map.
   */
  function UpdateOrder(s: Structure, layerIDs: seq<int>): (r: Result<Structure>)
    ensures r.Err? <==> |layerIDs| > |s.elements|
    ensures r.Ok? ==> r.value.index == Reverse(layerIDs)
    ensures r.Ok? ==> forall k :: k in r.value.elements <==>
      k in s.elements && (|layerIDs| >= |s.index| || k !in s.index || k in layerIDs)
    ensures r.Ok? ==> forall k :: k in r.value.elements ==> r.value.elements[k] == s.elements[k]
  {
    var updatedIndex := Reverse(layerIDs);
    if |updatedIndex| > |s.elements| then Err("Too many layers in layer index")
    else if |updatedIndex| < |s.index| then
      var deleted := Difference(s.index, updatedIndex);
      assert forall k :: k in updatedIndex <==> k in layerIDs by {
        forall k { ReverseMembership(layerIDs, k); }
      }
      Ok(Structure(RemoveKeys(s.elements, deleted), updatedIndex))
    else Ok(Structure(s.elements, updatedIndex))
  }

  /** Reordering a valid structure by its own order, read top down, changes nothing. */
  lemma UpdateOrderOwnOrder(s: Structure)
    requires Valid(s)
    ensures UpdateOrder(s, Reverse(s.index)) == Ok(s)
  {
    IndexFitsMap(s);
    ReverseReverse(s.index);
  }

  /** Reordering by distinct known ids succeeds and keeps the structure valid. */
  lemma UpdateOrderValid(s: Structure, layerIDs: seq<int>)
    requires Valid(s) && NoDup(layerIDs)
    requires forall i :: 0 <= i < |layerIDs| ==> layerIDs[i] in s.elements
    ensures UpdateOrder(s, layerIDs).Ok? && Valid(UpdateOrder(s, layerIDs).value)
  {
    NoDupCard(layerIDs);
    SubsetCard(Elems(layerIDs), s.elements.Keys);
    var r := UpdateOrder(s, layerIDs).value;
    ReverseNoDup(layerIDs);
    forall i | 0 <= i < |r.index| ensures r.index[i] in r.elements {
      assert r.index[i] == layerIDs[|layerIDs| - 1 - i];
    }
  }

  /** Reversing keeps a sequence free of repeats. */
  lemma ReverseNoDup<T>(xs: seq<T>)
    requires NoDup(xs)
    ensures NoDup(Reverse(xs))
  {
    var r := Reverse(xs);
    forall i, j | 0 <= i < j < |r| ensures r[i] != r[j] {
      assert r[i] == xs[|xs| - 1 - i] && r[j] == xs[|xs| - 1 - j];
    }
  }

  // ----- deleteLayers -----

  /**
   * Delete the given ids from the index and the map. The remaining ids keep
   * their relative order and their elements; other elements stay.
   */
  function DeleteLayers(s: Structure, layerIDs: seq<int>): (r: Result<Structure>)
    ensures Valid(s) ==> r.Ok?
    ensures r.Ok? ==> r.value.index == Difference(s.index, layerIDs)
    ensures r.Ok? ==> forall k :: k in r.value.elements <==> k in s.elements && k !in layerIDs
    ensures r.Ok? ==> forall k :: k in r.value.elements ==> r.value.elements[k] == s.elements[k]
  {
    var remaining := Reverse(Difference(s.index, layerIDs));
    IndexFitsMap(s);
    match UpdateOrder(s, remaining)
    case Err(msg) => Err(msg)
    case Ok(t) =>
      ReverseReverse(Difference(s.index, layerIDs));
      assert forall k :: k in remaining <==> k in Difference(s.index, layerIDs) by {
        forall k { ReverseMembership(Difference(s.index, layerIDs), k); }
      }
      Ok(Structure(RemoveKeys(t.elements, layerIDs), t.index))
  }

  /** Deleting keeps a valid structure valid, and the index shrinks by the indexed ids deleted. */
  lemma DeleteLayersValid(s: Structure, layerIDs: seq<int>)
    requires Valid(s)
    ensures Valid(DeleteLayers(s, layerIDs).value)
    ensures NoDup(layerIDs) && (forall i :: 0 <= i < |layerIDs| ==> layerIDs[i] in s.index) ==>
      |DeleteLayers(s, layerIDs).value.index| == |s.index| - |layerIDs|
  {
    var r := DeleteLayers(s, layerIDs).value;
    FilterNoDup(s.index, x => x !in layerIDs);
    RemovalValid(s, r, layerIDs);
    if NoDup(layerIDs) && (forall i :: 0 <= i < |layerIDs| ==> layerIDs[i] in s.index) {
      DifferenceCard(s.index, layerIDs);
    }
  }

  /** Taking the same ids out of the index and the map keeps a structure valid. */
  lemma RemovalValid(s: Structure, r: Structure, layerIDs: seq<int>)
    requires Valid(s) && r.index == Difference(s.index, layerIDs) && NoDup(r.index)
    requires forall k :: k in r.elements <==> k in s.elements && k !in layerIDs
    requires forall k :: k in r.elements ==> r.elements[k] == s.elements[k]
    ensures Valid(r)
  {
    forall i | 0 <= i < |r.index| ensures r.index[i] in r.elements {
      assert r.index[i] in r.index;
      var j :| 0 <= j < |s.index| && s.index[j] == r.index[i];
    }
  }

  // ----- createGroup -----

  /** An element stored under its own id and listed in the index. */
  predicate Indexed(s: Structure, x: Element) {
    x.id in s.index && x.id in s.elements && s.elements[x.id] == x
  }

  /** The descendants of an indexed element are indexed. */
  lemma DescendantsIndexed(s: Structure, a: Element)
    requires Valid(s) && Indexed(s, a)
    ensures forall x :: x in Descendants(s, a) ==> Indexed(s, x)
  {
    NodesIndexed(s);
    StrictDescendantsDeeper(s, a);
    var d := Descendants(s, a);
    forall x | x in d ensures Indexed(s, x) {
      var i :| 0 <= i < |d| && d[i] == x;
      if i < |d| - 1 {
        assert x == StrictDescendants(s, a)[i];
      }
    }
  }

  lemma {:induction false} DescendantsOfEachIndexed(s: Structure, cs: seq<Element>)
    requires Valid(s) && forall i :: 0 <= i < |cs| ==> Indexed(s, cs[i])
    ensures forall x :: x in DescendantsOfEach(s, cs) ==> Indexed(s, x)
  {
    if cs != [] {
      DescendantsIndexed(s, cs[0]);
      DescendantsOfEachIndexed(s, cs[1..]);
    }
  }

  /**
   * The layers a new group takes in: the normalised selection with all
   * their descendants, each once, in order of first appearance.
   */
  function LayersToMove(s: Structure): (r: seq<Element>)
    requires Valid(s)
    ensures NoDup(r)
    ensures forall x :: x in r ==> Indexed(s, x)
  {
    var sel := SelectedNormalized(s);
    assert forall i :: 0 <= i < |sel| ==> Indexed(s, sel[i]) by {
      forall i | 0 <= i < |sel| ensures Indexed(s, sel[i]) {
        var j :| 0 <= j < |All(s)| && All(s)[j] == sel[i];
      }
    }
    DescendantsOfEachIndexed(s, sel);
    Dedup(DescendantsOfEach(s, sel))
  }

  /** A layer moves into the new group exactly when it descends from (or is) a member of the normalised selection. */
  lemma LayersToMoveSpec(s: Structure, x: Element)
    requires Valid(s)
    ensures x in LayersToMove(s) <==> exists a :: a in SelectedNormalized(s) && x in Descendants(s, a)
  {
    var sel := SelectedNormalized(s);
    DescendantsOfEachMember(s, sel, x);
    if exists a :: a in sel && x in Descendants(s, a) {
      var a :| a in sel && x in Descendants(s, a);
      var i :| 0 <= i < |sel| && sel[i] == a;
    }
  }

  /** The ids of a list of elements, in order. */
  function Ids(es: seq<Element>): (r: seq<int>)
    ensures |r| == |es| && forall i :: 0 <= i < |es| ==> r[i] == es[i].id
  {
    seq(|es|, i requires 0 <= i < |es| => es[i].id)
  }

  /** The ids of the layers to move are distinct ids of the index. */
  lemma MoveIdsIndexed(s: Structure)
    requires Valid(s)
    ensures NoDup(Ids(LayersToMove(s)))
    ensures forall i :: 0 <= i < |LayersToMove(s)| ==> Ids(LayersToMove(s))[i] in s.index
  {
    var m := LayersToMove(s);
    var ids := Ids(m);
    forall i, j | 0 <= i < j < |ids| ensures ids[i] != ids[j] {
      assert Indexed(s, m[i]) && Indexed(s, m[j]);
    }
    forall i | 0 <= i < |m| ensures ids[i] in s.index {
      assert Indexed(s, m[i]);
    }
  }

  /**
   * A JavaScript slice bound: a negative value counts from the end, the
   * result is clamped to the list, and NaN (None) reads as 0.
   */
  function SliceBound(h: Option<int>, size: nat): (c: nat)
    ensures c <= size
    ensures h.Some? && 0 <= h.value <= size ==> c == h.value
    ensures h.None? ==> c == 0
    ensures h.Some? && h.value > size ==> c == size
  {
    match h
    case None => 0
    case Some(v) =>
      if v < 0 then (if size + v < 0 then 0 else size + v)
      else if v > size then size
      else v
  }

  /**
   * Where the group goes, counted from the top of the list: the map size
   * less the position of the last layer to move. NaN (None) when nothing
   * moves; an unindexed last layer has no position and counts as 0.
   */
  function GroupHeadIndex(s: Structure, move: seq<Element>): (r: Option<int>)
    ensures r.None? <==> move == []
  {
    if move == [] then None
    else
      var last := match IndexOf(s, move[|move| - 1]) case None => 0 case Some(p) => p;
      Some(|s.elements| - last)
  }

  /** The head element of a new group. */
  function GroupHeadElement(groupID: int, groupName: string): (e: Element)
    ensures e.id == groupID && e.kind == Group && e.name == groupName && !e.isParent
  {
    NewElement(groupID, groupName, Group, false)
  }

  /** The end marker of a new group. */
  function GroupEndElement(groupEndID: int): (e: Element)
    ensures e.id == groupEndID && e.kind == GroupEnd && !e.isParent
  {
    NewElement(groupEndID, "", GroupEnd, false)
  }

  /** The index with the moved ids taken out: the ids that stay where they were. */
  function StayingIds(s: Structure): seq<int>
    requires Valid(s)
  {
    Difference(s.index, Ids(LayersToMove(s)))
  }

  /**
   * The new order as the source builds it, top down: the first c staying
   * ids from the top, the group (head, moved ids top down, end marker),
   * then the rest.
   */
  function NewOrder(staying: seq<int>, moveIDs: seq<int>, c: nat, groupID: int, groupEndID: int): seq<int>
    requires c <= |staying|
  {
    var removedIDs := Reverse(staying);
    removedIDs[..c] + Reverse([groupEndID] + moveIDs + [groupID]) + removedIDs[c..]
  }

  /** Read bottom up, the new order is the staying ids with the group's run spliced in as one block. */
  lemma NewOrderReversed(staying: seq<int>, moveIDs: seq<int>, c: nat, groupID: int, groupEndID: int)
    requires c <= |staying|
    ensures Reverse(NewOrder(staying, moveIDs, c, groupID, groupEndID)) ==
      staying[..|staying| - c] + [groupEndID] + moveIDs + [groupID] + staying[|staying| - c..]
  {
    var lo, hi := staying[..|staying| - c], staying[|staying| - c..];
    var head := [groupEndID] + moveIDs;
    SpliceReversed(staying, head + [groupID], c);
    ConcatAssoc(lo, head, [groupID]);
    ConcatAssoc(lo, [groupEndID], moveIDs);
  }

  /** The map with the new head and end marker stored, before reordering. */
  function WithGroup(s: Structure, groupID: int, groupEndID: int, groupName: string): (r: Structure)
    ensures r.index == s.index
    ensures r.elements.Keys == s.elements.Keys + {groupID, groupEndID}
  {
    Structure(s.elements[groupID := GroupHeadElement(groupID, groupName)]
                        [groupEndID := GroupEndElement(groupEndID)], s.index)
  }

  /** The cut, counted from the top, at which the source splices the group into the staying ids. */
  function GroupCut(s: Structure): (c: nat)
    requires Valid(s)
    ensures c <= |StayingIds(s)|
  {
    SliceBound(GroupHeadIndex(s, LayersToMove(s)), |StayingIds(s)|)
  }

  /** The new order, top down, that the source hands to the reorder. */
  function GroupedOrder(s: Structure, groupID: int, groupEndID: int): seq<int>
    requires Valid(s)
  {
    NewOrder(StayingIds(s), Ids(LayersToMove(s)), GroupCut(s), groupID, groupEndID)
  }

  /** The structure with the head and end stored and only the head selected, before reordering. */
  function Grouped(s: Structure, groupID: int, groupEndID: int, groupName: string): Structure {
    UpdateSelection(WithGroup(s, groupID, groupEndID, groupName), {groupID})
  }

  /**
   * Group the normalised selection and its descendants under a new group
   * head with a new end marker. In the resulting index the end marker, the
   * moved layers and the head form one contiguous run, end first; the
   * other ids keep their order around it. Exactly the head is selected,
   * and every other element is as before.
   */
  function CreateGroup(s: Structure, groupID: int, groupEndID: int, groupName: string): (r: Result<Structure>)
    requires Valid(s)
    ensures r.Ok? ==> var c := |StayingIds(s)| - GroupCut(s);
      r.value.index == StayingIds(s)[..c] + [groupEndID] + Ids(LayersToMove(s)) + [groupID] + StayingIds(s)[c..]
    ensures r.Ok? ==> forall k :: k in r.value.elements ==> (r.value.elements[k].selected <==> k == groupID)
    ensures r.Ok? ==> (groupEndID in r.value.elements &&
      r.value.elements[groupEndID] == GroupEndElement(groupEndID).(selected := groupEndID == groupID))
    ensures r.Ok? && groupID != groupEndID ==>
      groupID in r.value.elements && r.value.elements[groupID] == GroupHeadElement(groupID, groupName).(selected := true)
    ensures r.Ok? ==> forall k :: k in r.value.elements && k != groupID && k != groupEndID ==>
      k in s.elements && r.value.elements[k] == s.elements[k].(selected := false)
  {
    var moveIDs := Ids(LayersToMove(s));
    var staying := StayingIds(s);
    var c := GroupCut(s);
    var newIDs := GroupedOrder(s, groupID, groupEndID);
    NewOrderReversed(staying, moveIDs, c, groupID, groupEndID);
    GroupedSelection(s, groupID, groupEndID, groupName);
    ReverseMembership(newIDs, groupID);
    ReverseMembership(newIDs, groupEndID);
    var r := UpdateOrder(Grouped(s, groupID, groupEndID, groupName), newIDs);
    var cut := |staying| - c;
    assert r.Ok? ==> r.value.index == staying[..cut] + [groupEndID] + moveIDs + [groupID] + staying[cut..];
    r
  }

  /** Before reordering: the head alone is selected and every other element is as before, unselected. */
  lemma GroupedSelection(s: Structure, groupID: int, groupEndID: int, groupName: string)
    requires Valid(s)
    ensures var g := Grouped(s, groupID, groupEndID, groupName);
      && (forall k :: k in g.elements ==> (g.elements[k].selected <==> k == groupID))
      && g.elements[groupEndID] == GroupEndElement(groupEndID).(selected := groupEndID == groupID)
      && (groupID != groupEndID ==> g.elements[groupID] == GroupHeadElement(groupID, groupName).(selected := true))
      && (forall k :: k in g.elements && k != groupID && k != groupEndID ==>
            k in s.elements && g.elements[k] == s.elements[k].(selected := false))
  {
    WithGroupKeyed(s, groupID, groupEndID, groupName);
  }

  /** Storing the head and end keeps every element under its own id. */
  lemma WithGroupKeyed(s: Structure, groupID: int, groupEndID: int, groupName: string)
    requires Valid(s)
    ensures var w := WithGroup(s, groupID, groupEndID, groupName);
      forall k :: k in w.elements ==> w.elements[k].id == k
  {
    var w := WithGroup(s, groupID, groupEndID, groupName);
    forall k | k in w.elements ensures w.elements[k].id == k {
      if k != groupID && k != groupEndID {
        assert w.elements[k] == s.elements[k];
      }
    }
  }

  /** The staying ids with the group's run spliced in are free of repeats when the parts are. */
  lemma GroupRunNoDup(staying: seq<int>, moveIDs: seq<int>, cut: nat, groupID: int, groupEndID: int)
    requires cut <= |staying| && NoDup(staying) && NoDup(moveIDs) && groupID != groupEndID
    requires forall x :: x in moveIDs ==> x !in staying
    requires groupID !in staying && groupID !in moveIDs && groupEndID !in staying && groupEndID !in moveIDs
    ensures NoDup(staying[..cut] + [groupEndID] + moveIDs + [groupID] + staying[cut..])
  {
    var a, b := staying[..cut], staying[cut..];
    assert staying == a + b;
    assert NoDup(a) && NoDup(b);
    assert forall x :: x in a ==> x !in b;
    NoDupConcat(a, [groupEndID]);
    NoDupConcat(a + [groupEndID], moveIDs);
    NoDupConcat(a + [groupEndID] + moveIDs, [groupID]);
    NoDupConcat(a + [groupEndID] + moveIDs + [groupID], b);
  }

  /** Two fresh ids add two entries to the map. */
  lemma GroupedSize(s: Structure, groupID: int, groupEndID: int, groupName: string)
    requires groupID != groupEndID && groupID !in s.elements && groupEndID !in s.elements
    ensures |Grouped(s, groupID, groupEndID, groupName).elements| == |s.elements| + 2
  {
    var g := Grouped(s, groupID, groupEndID, groupName);
    assert g.elements.Keys == s.elements.Keys + {groupID, groupEndID};
    assert s.elements.Keys * {groupID, groupEndID} == {};
  }

  /** The new order lists every indexed id once, plus the two new ones. */
  lemma GroupedOrderSize(s: Structure, groupID: int, groupEndID: int)
    requires Valid(s)
    ensures |GroupedOrder(s, groupID, groupEndID)| == |s.index| + 2
  {
    MoveIdsIndexed(s);
    DifferenceCard(s.index, Ids(LayersToMove(s)));
  }

  /** With two fresh, distinct ids, grouping succeeds and adds exactly the two new elements. */
  lemma CreateGroupOk(s: Structure, groupID: int, groupEndID: int, groupName: string)
    requires Valid(s) && groupID != groupEndID && groupID !in s.elements && groupEndID !in s.elements
    ensures CreateGroup(s, groupID, groupEndID, groupName).Ok?
    ensures CreateGroup(s, groupID, groupEndID, groupName).value.elements.Keys == s.elements.Keys + {groupID, groupEndID}
  {
    var g := Grouped(s, groupID, groupEndID, groupName);
    var order := GroupedOrder(s, groupID, groupEndID);
    CreateGroupReorders(s, groupID, groupEndID, groupName);
    GroupedSize(s, groupID, groupEndID, groupName);
    GroupedOrderSize(s, groupID, groupEndID);
    IndexFitsMap(s);
    assert g.index == s.index;
    UpdateOrderKeepsAll(g, order);
  }

  /** A reorder that lists at least as many ids as the index keeps the whole map and only reorders. */
  lemma UpdateOrderKeepsAll(s: Structure, layerIDs: seq<int>)
    requires |s.index| <= |layerIDs| <= |s.elements|
    ensures UpdateOrder(s, layerIDs) == Ok(Structure(s.elements, Reverse(layerIDs)))
  {
  }

  /** Grouping is the reorder, by the new order, of the structure with the head and end stored. */
  lemma CreateGroupReorders(s: Structure, groupID: int, groupEndID: int, groupName: string)
    requires Valid(s)
    ensures CreateGroup(s, groupID, groupEndID, groupName) ==
      UpdateOrder(Grouped(s, groupID, groupEndID, groupName), GroupedOrder(s, groupID, groupEndID))
    ensures GroupedOrder(s, groupID, groupEndID) == NewOrder(StayingIds(s), Ids(LayersToMove(s)), GroupCut(s), groupID, groupEndID)
  {
  }

  /** With fresh, distinct ids the grouped index repeats no id. */
  lemma GroupIndexNoDup(s: Structure, groupID: int, groupEndID: int, cut: nat)
    requires Valid(s) && groupID != groupEndID && groupID !in s.elements && groupEndID !in s.elements
    requires cut <= |StayingIds(s)|
    ensures NoDup(StayingIds(s)[..cut] + [groupEndID] + Ids(LayersToMove(s)) + [groupID] + StayingIds(s)[cut..])
  {
    var moveIDs := Ids(LayersToMove(s));
    MoveIdsIndexed(s);
    DifferenceCard(s.index, moveIDs);
    GroupRunNoDup(StayingIds(s), moveIDs, cut, groupID, groupEndID);
  }

  /** A run spliced into a list draws its ids from the list, the run's body and the two ends. */
  lemma RunMembers(staying: seq<int>, moveIDs: seq<int>, cut: nat, groupID: int, groupEndID: int, idx: seq<int>)
    requires cut <= |staying|
    requires forall x :: x in staying ==> x in idx
    requires forall x :: x in moveIDs ==> x in idx
    ensures forall x :: x in staying[..cut] + [groupEndID] + moveIDs + [groupID] + staying[cut..] ==>
      x in idx || x == groupID || x == groupEndID
  {
    assert staying == staying[..cut] + staying[cut..];
  }

  /** The grouped index lists old indexed ids and the two new ones only. */
  lemma GroupIndexMembers(s: Structure, groupID: int, groupEndID: int, cut: nat)
    requires Valid(s) && cut <= |StayingIds(s)|
    ensures forall x :: x in StayingIds(s)[..cut] + [groupEndID] + Ids(LayersToMove(s)) + [groupID] + StayingIds(s)[cut..] ==>
      x in s.index || x == groupID || x == groupEndID
  {
    var staying := StayingIds(s);
    var moveIDs := Ids(LayersToMove(s));
    MoveIdsIndexed(s);
    forall x | x in moveIDs ensures x in s.index {
      var i :| 0 <= i < |moveIDs| && moveIDs[i] == x;
    }
    RunMembers(staying, moveIDs, cut, groupID, groupEndID, s.index);
  }

  /**
   * A structure built from a valid one by adding the entries g and e,
   * unselecting the others, and reordering within the old ids and the new
   * ones, is valid.
   */
  lemma ValidWithTwoNew(s: Structure, r: Structure, g: int, e: int)
    requires Valid(s)
    requires r.elements.Keys == s.elements.Keys + {g, e}
    requires NoDup(r.index)
    requires forall x :: x in r.index ==> x in s.index || x == g || x == e
    requires forall k :: k in r.elements && k != g && k != e ==> k in s.elements && r.elements[k] == s.elements[k].(selected := false)
    requires r.elements[g].id == g && r.elements[e].id == e
    requires r.elements[g].kind == GroupEnd ==> !r.elements[g].isParent
    requires r.elements[e].kind == GroupEnd ==> !r.elements[e].isParent
    ensures Valid(r)
  {
    forall i | 0 <= i < |r.index| ensures r.index[i] in r.elements {
      assert r.index[i] in r.index;
    }
  }

  /** The shape of a grouped structure: the grouped index and the two new elements over the old ones. */
  predicate GroupedShape(s: Structure, r: Structure, groupID: int, groupEndID: int, c: nat)
    requires Valid(s)
  {
    && c <= |StayingIds(s)|
    && r.index == StayingIds(s)[..c] + [groupEndID] + Ids(LayersToMove(s)) + [groupID] + StayingIds(s)[c..]
    && r.elements.Keys == s.elements.Keys + {groupID, groupEndID}
    && (forall k :: k in r.elements && k != groupID && k != groupEndID ==> k in s.elements && r.elements[k] == s.elements[k].(selected := false))
    && r.elements[groupID].id == groupID && r.elements[groupEndID].id == groupEndID
    && (r.elements[groupID].kind == GroupEnd ==> !r.elements[groupID].isParent)
    && (r.elements[groupEndID].kind == GroupEnd ==> !r.elements[groupEndID].isParent)
  }

  /** A structure of the grouped shape is valid. */
  lemma GroupedValid(s: Structure, r: Structure, groupID: int, groupEndID: int, c: nat)
    requires Valid(s) && groupID != groupEndID && groupID !in s.elements && groupEndID !in s.elements
    requires GroupedShape(s, r, groupID, groupEndID, c)
    ensures Valid(r)
  {
    GroupIndexNoDup(s, groupID, groupEndID, c);
    GroupIndexMembers(s, groupID, groupEndID, c);
    ValidWithTwoNew(s, r, groupID, groupEndID);
  }

  /** With two fresh, distinct ids, the grouped structure has the grouped shape. */
  lemma CreateGroupShape(s: Structure, groupID: int, groupEndID: int, groupName: string)
    requires Valid(s) && groupID != groupEndID && groupID !in s.elements && groupEndID !in s.elements
    ensures CreateGroup(s, groupID, groupEndID, groupName).Ok?
    ensures GroupedShape(s, CreateGroup(s, groupID, groupEndID, groupName).value, groupID, groupEndID, |StayingIds(s)| - GroupCut(s))
  {
    CreateGroupOk(s, groupID, groupEndID, groupName);
  }

  /**
   * With two fresh, distinct ids, grouping keeps the structure valid: the
   * run is spliced in without repeating an id.
   */
  lemma CreateGroupValid(s: Structure, groupID: int, groupEndID: int, groupName: string)
    requires Valid(s) && groupID != groupEndID && groupID !in s.elements && groupEndID !in s.elements
    ensures CreateGroup(s, groupID, groupEndID, groupName).Ok?
    ensures Valid(CreateGroup(s, groupID, groupEndID, groupName).value)
  {
    CreateGroupShape(s, groupID, groupEndID, groupName);
    GroupedValid(s, CreateGroup(s, groupID, groupEndID, groupName).value, groupID, groupEndID, |StayingIds(s)| - GroupCut(s));
  }
}
