/**
 * The drag-and-drop store: a table from zone to the ordered droppables
 * registered there, and the state of the one drag session.
 *
 * Every droppable's own validity callback is folded into one function
 * `isValid`, which is told the droppable it is asked about; each drop
 * handler call is recorded in the ghost log `drops` as the model object it
 * is handed.
 */
module DragAndDrop {
  import opened Common
  import opened LayerEdits

  /** A cursor position. */
  datatype Point = Point(x: int, y: int)

  /** A registered drop area: its key, unique in its zone, and the model object (a layer id) it shows. */
  datatype Droppable = Droppable(key: string, keyObject: int)

  /** What a droppable's validity callback answers: whether the point is over it, and whether the drop would be allowed. */
  datatype Validation = Validation(compatible: bool, valid: bool)

  /** The validity callbacks of all droppables, told the droppable, the dragged objects and the point. */
  type Validator = (Droppable, seq<int>, Point) -> Validation

  // ----- hit testing -----

  /** The position of the first droppable the point is over, if any. */
  function FirstCompatible(ds: seq<Droppable>, drag: seq<int>, p: Point, isValid: Validator): (r: Option<nat>)
    ensures r.Some? ==> r.value < |ds| && isValid(ds[r.value], drag, p).compatible
    ensures r.Some? ==> forall j :: 0 <= j < r.value ==> !isValid(ds[j], drag, p).compatible
    ensures r.None? <==> forall j :: 0 <= j < |ds| ==> !isValid(ds[j], drag, p).compatible
  {
    if ds == [] then None
    else if isValid(ds[0], drag, p).compatible then Some(0)
    else match FirstCompatible(ds[1..], drag, p, isValid)
      case None => None
      case Some(k) => Some(k + 1)
  }

  /** Entries after the first compatible one play no part: any list that agrees up to it finds the same one. */
  lemma FirstCompatibleIgnoresRest(ds: seq<Droppable>, other: seq<Droppable>, drag: seq<int>, p: Point, isValid: Validator)
    requires FirstCompatible(ds, drag, p, isValid).Some?
    requires var k := FirstCompatible(ds, drag, p, isValid).value; k < |other| && other[..k + 1] == ds[..k + 1]
    ensures FirstCompatible(other, drag, p, isValid) == FirstCompatible(ds, drag, p, isValid)
  {
    var k := FirstCompatible(ds, drag, p, isValid).value;
    forall j | 0 <= j <= k ensures other[j] == ds[j] {
      assert other[j] == other[..k + 1][j] && ds[j] == ds[..k + 1][j];
    }
    var r := FirstCompatible(other, drag, p, isValid);
    assert r.Some? by {
      assert isValid(other[k], drag, p).compatible;
    }
    assert r.value == k;
  }

  /** The list with the entry at k moved to the front, the others in their order. */
  function MoveToFront(ds: seq<Droppable>, k: nat): (r: seq<Droppable>)
    requires k < |ds|
    ensures |r| == |ds| && r[0] == ds[k]
    ensures r[1..] == ds[..k] + ds[k + 1..]
    ensures multiset(r) == multiset(ds)
  {
    assert ds == ds[..k] + [ds[k]] + ds[k + 1..];
    [ds[k]] + ListDelete(ds, k)
  }

  /** The outcome of a hit test: the new drop target and the zone's reordered list. */
  datatype Resolution = Resolution(dropTarget: Option<Droppable>, list: seq<Droppable>)

  /**
   * A hit test: the first compatible droppable becomes the drop target if
   * it is also valid, and moves to the front of the list; when none is
   * compatible there is no drop target and the list stays as it was.
   */
  function Resolve(ds: seq<Droppable>, drag: seq<int>, p: Point, isValid: Validator): (r: Resolution)
    ensures multiset(r.list) == multiset(ds)
    ensures r.dropTarget.Some? <==> exists k :: FirstCompatible(ds, drag, p, isValid) == Some(k) && isValid(ds[k], drag, p).valid
    ensures r.dropTarget.Some? ==> r.dropTarget.value == r.list[0] && r.dropTarget.value in ds
    ensures FirstCompatible(ds, drag, p, isValid).None? ==> r.list == ds
    ensures FirstCompatible(ds, drag, p, isValid).Some? ==>
      var k := FirstCompatible(ds, drag, p, isValid).value; r.list[0] == ds[k] && r.list[1..] == ds[..k] + ds[k + 1..]
  {
    match FirstCompatible(ds, drag, p, isValid)
    case None => Resolution(None, ds)
    case Some(k) => Resolution(if isValid(ds[k], drag, p).valid then Some(ds[k]) else None, MoveToFront(ds, k))
  }

  /**
   * The move to the front makes the list a cache: a second hit test at the
   * same point finds the same droppable at once, and changes nothing.
   */
  lemma ResolveSettles(ds: seq<Droppable>, drag: seq<int>, p: Point, isValid: Validator)
    ensures var r := Resolve(ds, drag, p, isValid);
      Resolve(r.list, drag, p, isValid) == r
  {
    var r := Resolve(ds, drag, p, isValid);
    match FirstCompatible(ds, drag, p, isValid)
    case None =>
    case Some(k) =>
      assert FirstCompatible(r.list, drag, p, isValid) == Some(0);
      assert MoveToFront(r.list, 0) == r.list by {
        assert r.list[..0] + r.list[1..] == r.list[1..];
      }
  }

  // ----- deregistration by key -----

  /**
   * The list index a key string names when given to an Immutable List
   * (its unsigned 32-bit reading, kept only when writing it back gives the
   * same string); any other key names no index.
   */
  function KeyIndex(key: string): (r: Option<nat>)
    ensures r.Some? ==> key == NatToString(r.value) && r.value < 0xFFFF_FFFF
  {
    if Canonical(key) && DigitsValue(key) < 0xFFFF_FFFF then
      DigitsValueString(key);
      Some(DigitsValue(key))
    else None
  }

  /** A key names an index exactly when it is how that index is written. */
  lemma KeyIndexExact(key: string, n: nat)
    ensures KeyIndex(key) == Some(n) <==> key == NatToString(n) && n < 0xFFFF_FFFF
  {
    if key == NatToString(n) {
      NatToStringCanonical(n);
      NatToStringValue(n);
    }
  }

  /** List.delete given a key: the entry at the index the key names, if there is one, is removed. */
  function DeleteKeyAsWritten(ds: seq<Droppable>, key: string): (r: seq<Droppable>)
    ensures KeyIndex(key).Some? && KeyIndex(key).value < |ds| ==> r == ds[..KeyIndex(key).value] + ds[KeyIndex(key).value + 1..]
    ensures !(KeyIndex(key).Some? && KeyIndex(key).value < |ds|) ==> r == ds
  {
    match KeyIndex(key)
    case Some(n) => ListDelete(ds, n)
    case None => ds
  }

  /**
   * _removeDroppables as written: each key is handed to List.delete, which
   * takes a position, so a droppable is removed only when a key happens to
   * be the numeral of some position, and then it is whichever droppable
   * sits there.
   */
  function RemoveKeysAsWritten(ds: seq<Droppable>, keys: seq<string>): (r: seq<Droppable>)
    ensures multiset(r) <= multiset(ds)
    ensures (forall i :: 0 <= i < |keys| ==> KeyIndex(keys[i]).None?) ==> r == ds
  {
    if keys == [] then ds
    else
      var next := DeleteKeyAsWritten(ds, keys[0]);
      assert multiset(next) <= multiset(ds) by {
        if next != ds {
          var n := KeyIndex(keys[0]).value;
          assert ds == ds[..n] + [ds[n]] + ds[n + 1..];
        }
      }
      RemoveKeysAsWritten(next, keys[1..])
  }

  /** _removeDroppables as intended: the droppables whose key is listed leave, the others keep their order. */
  function RemoveKeys(ds: seq<Droppable>, keys: seq<string>): (r: seq<Droppable>)
    ensures forall d :: d in r <==> d in ds && d.key !in keys
    ensures |r| <= |ds|
  {
    Filter(ds, (d: Droppable) => d.key !in keys)
  }

  /** Registering a droppable under a fresh key and deregistering that key gives back the list. */
  lemma RegisterThenRemove(ds: seq<Droppable>, d: Droppable)
    requires forall i :: 0 <= i < |ds| ==> ds[i].key != d.key
    ensures RemoveKeys(ds + [d], [d.key]) == ds
  {
    var f := (x: Droppable) => x.key !in [d.key];
    FilterConcat(ds, [d], f);
    FilterAll(ds, f);
    assert Filter([d], f) == [] by {
      assert [d][1..] == [];
    }
  }

  /**
   * Deregistering a layer's droppable by its key: as written the droppable
   * stays (its key is not a numeral), and a numeral key removes some other
   * droppable; as intended exactly the keyed droppable leaves.
   */
  lemma RemoveByKeyFinding()
    ensures var ds := [Droppable("a", 1), Droppable("b", 2)];
      && RemoveKeysAsWritten(ds, ["a"]) == ds
      && RemoveKeysAsWritten(ds, ["1"]) == [Droppable("a", 1)]
      && RemoveKeys(ds, ["a"]) == [Droppable("b", 2)]
  {
    var ds := [Droppable("a", 1), Droppable("b", 2)];
    assert !Canonical("a");
    assert Canonical("1") && DigitsValue("1") == 1;
    assert DeleteKeyAsWritten(ds, "1") == [Droppable("a", 1)];
    assert ds[1..] == [Droppable("b", 2)];
    assert ds[1..][1..] == [];
  }

  // ----- the store -----

  /** The store's fields, reassigned by its handlers. */
  class DragAndDropStore {
    /** The registered droppables of each zone, in search order. */
    var zones: map<int, seq<Droppable>>
    /** The dragged model objects, while a drag is in progress. */
    var dragTargets: Option<seq<int>>
    /** The droppable a drop would go to now. */
    var dropTarget: Option<Droppable>
    /** The dragged objects of the last finished drag. */
    var pastDragTargets: Option<seq<int>>
    /** The last cursor position of the drag. */
    var dragPosition: Option<Point>
    /** The model objects the drop handlers were called with, in order. */
    ghost var drops: seq<int>
    /** The number of change notifications the store has sent. */
    ghost var changes: nat

    /** A drop target exists only while a drag is in progress. */
    ghost predicate Valid()
      reads this
    {
      dropTarget.Some? ==> dragTargets.Some?
    }

    /** The droppables of a zone; a zone never registered has none. */
    function ZoneList(zone: int): (r: seq<Droppable>)
      reads this
      ensures zone !in zones ==> r == []
      ensures zone in zones ==> r == zones[zone]
    {
      if zone in zones then zones[zone] else []
    }

    constructor()
      ensures zones == map[] && dragTargets.None? && dropTarget.None? && pastDragTargets.None? && dragPosition.None?
      ensures drops == [] && changes == 0 && Valid()
    {
      zones := map[];
      dragTargets := None;
      dropTarget := None;
      pastDragTargets := None;
      dragPosition := None;
      drops := [];
      changes := 0;
    }

    /** Start a drag of the given objects. */
    method StartDragging(targets: seq<int>)
      modifies this
      requires Valid()
      ensures Valid()
      ensures dragTargets == Some(targets)
      ensures zones == old(zones) && dropTarget == old(dropTarget) && pastDragTargets == old(pastDragTargets)
      ensures dragPosition == old(dragPosition) && drops == old(drops)
      ensures changes == old(changes) + 1
    {
      dragTargets := Some(targets);
      changes := changes + 1;
    }

    /**
     * Stop the drag: the drop target's handler is called with its model
     * object, if there is a drop target, and the session is cleared,
     * keeping the dragged objects as the past ones.
     */
    method StopDragging()
      modifies this
      requires Valid()
      ensures Valid()
      ensures drops == old(drops) + (if old(dropTarget).Some? then [old(dropTarget).value.keyObject] else [])
      ensures dropTarget.None? && dragTargets.None? && dragPosition.None?
      ensures pastDragTargets == old(dragTargets) && zones == old(zones)
      ensures changes == old(changes) + 1
    {
      if dropTarget.Some? {
        drops := drops + [dropTarget.value.keyObject];
        dropTarget := None;
      }
      pastDragTargets := dragTargets;
      dragTargets := None;
      dragPosition := None;
      changes := changes + 1;
    }

    /** Append droppables to a zone's list; an unknown zone starts from an empty one. */
    method AddDroppables(zone: int, ds: seq<Droppable>)
      modifies this
      requires Valid()
      ensures Valid()
      ensures zones == old(zones)[zone := old(ZoneList(zone)) + ds]
      ensures dragTargets == old(dragTargets) && dropTarget == old(dropTarget) && pastDragTargets == old(pastDragTargets)
      ensures dragPosition == old(dragPosition) && drops == old(drops) && changes == old(changes)
    {
      var existing := ZoneList(zone);
      zones := zones[zone := existing + ds];
    }

    /** Register one droppable. */
    method RegisterDroppable(zone: int, d: Droppable)
      modifies this
      requires Valid()
      ensures Valid()
      ensures zones == old(zones)[zone := old(ZoneList(zone)) + [d]]
      ensures dragTargets == old(dragTargets) && dropTarget == old(dropTarget) && pastDragTargets == old(pastDragTargets)
      ensures dragPosition == old(dragPosition) && drops == old(drops) && changes == old(changes)
    {
      AddDroppables(zone, [d]);
    }

    /** Register many droppables at once. */
    method BatchRegisterDroppables(zone: int, ds: seq<Droppable>)
      modifies this
      requires Valid()
      ensures Valid()
      ensures zones == old(zones)[zone := old(ZoneList(zone)) + ds]
      ensures dragTargets == old(dragTargets) && dropTarget == old(dropTarget) && pastDragTargets == old(pastDragTargets)
      ensures dragPosition == old(dragPosition) && drops == old(drops) && changes == old(changes)
    {
      AddDroppables(zone, ds);
    }

    /**
     * Remove the droppables with the given keys from a zone. A zone with no
     * list fails, and then nothing changes; other zones are never touched.
     */
    method RemoveDroppables(zone: int, keys: seq<string>) returns (o: Outcome)
      modifies this
      requires Valid()
      ensures Valid()
      ensures o.Fail? <==> zone !in old(zones)
      ensures o.Fail? ==> o.error == "Unable to remove droppables from an empty drop target zone" && zones == old(zones)
      ensures o.Pass? ==> zones == old(zones)[zone := RemoveKeys(old(zones)[zone], keys)]
      ensures dragTargets == old(dragTargets) && dropTarget == old(dropTarget) && pastDragTargets == old(pastDragTargets)
      ensures dragPosition == old(dragPosition) && drops == old(drops) && changes == old(changes)
    {
      if zone !in zones {
        return Fail("Unable to remove droppables from an empty drop target zone");
      }
      zones := zones[zone := RemoveKeys(zones[zone], keys)];
      o := Pass;
    }

    /** Deregister one droppable by key. */
    method DeregisterDroppable(zone: int, key: string) returns (o: Outcome)
      modifies this
      requires Valid()
      ensures Valid()
      ensures o.Fail? <==> zone !in old(zones)
      ensures o.Fail? ==> zones == old(zones)
      ensures o.Pass? ==> zones == old(zones)[zone := RemoveKeys(old(zones)[zone], [key])]
      ensures dragTargets == old(dragTargets) && dropTarget == old(dropTarget) && pastDragTargets == old(pastDragTargets)
      ensures dragPosition == old(dragPosition) && drops == old(drops) && changes == old(changes)
    {
      o := RemoveDroppables(zone, [key]);
    }

    /** Deregister many droppables by key. */
    method BatchDeregisterDroppables(zone: int, keys: seq<string>) returns (o: Outcome)
      modifies this
      requires Valid()
      ensures Valid()
      ensures o.Fail? <==> zone !in old(zones)
      ensures o.Fail? ==> zones == old(zones)
      ensures o.Pass? ==> zones == old(zones)[zone := RemoveKeys(old(zones)[zone], keys)]
      ensures dragTargets == old(dragTargets) && dropTarget == old(dropTarget) && pastDragTargets == old(pastDragTargets)
      ensures dragPosition == old(dragPosition) && drops == old(drops) && changes == old(changes)
    {
      o := RemoveDroppables(zone, keys);
    }

    /** Replace a zone's droppables by the given ones. */
    method ResetDroppables(zone: int, ds: seq<Droppable>)
      modifies this
      requires Valid()
      ensures Valid()
      ensures zones == old(zones)[zone := ds]
      ensures dragTargets == old(dragTargets) && dropTarget == old(dropTarget) && pastDragTargets == old(pastDragTargets)
      ensures dragPosition == old(dragPosition) && drops == old(drops) && changes == old(changes)
    {
      zones := zones - {zone};
      AddDroppables(zone, ds);
      assert [] + ds == ds;
    }

    /**
     * Hit-test the point against a zone's droppables, scanning in order
     * and stopping at the first compatible one. Outside a drag nothing
     * happens; a drag over a zone with no list fails, changing nothing.
     */
    method CheckBounds(zone: int, p: Point, isValid: Validator) returns (o: Outcome)
      modifies this
      requires Valid()
      ensures Valid()
      ensures o.Fail? <==> old(dragTargets).Some? && zone !in old(zones)
      ensures old(dragTargets).None? || o.Fail? ==> zones == old(zones) && dropTarget == old(dropTarget)
      ensures old(dragTargets).Some? && o.Pass? ==>
        var r := Resolve(old(zones)[zone], old(dragTargets).value, p, isValid);
        dropTarget == r.dropTarget && zones == old(zones)[zone := r.list]
      ensures dragTargets == old(dragTargets) && pastDragTargets == old(pastDragTargets)
      ensures dragPosition == old(dragPosition) && drops == old(drops) && changes == old(changes)
    {
      if dragTargets.None? {
        return Pass;
      }
      if zone !in zones {
        return Fail("Cannot read property 'find' of undefined");
      }
      var drag := dragTargets.value;
      var ds := zones[zone];
      var found: Option<nat> := None;
      var foundValid := false;
      var i := 0;
      while i < |ds| && found.None?
        invariant 0 <= i <= |ds|
        invariant found.None? ==> forall j :: 0 <= j < i ==> !isValid(ds[j], drag, p).compatible
        invariant found.Some? ==> found == FirstCompatible(ds, drag, p, isValid)
        invariant foundValid <==> found.Some? && isValid(ds[found.value], drag, p).valid
        decreases |ds| - i
      {
        var info := isValid(ds[i], drag, p);
        if info.compatible {
          found := Some(i);
          foundValid := info.valid;
        }
        i := i + 1;
      }
      if found.None? {
        assert FirstCompatible(ds, drag, p, isValid).None?;
      }
      if foundValid {
        dropTarget := Some(ds[found.value]);
      } else {
        dropTarget := None;
      }
      if found.Some? {
        zones := zones[zone := [ds[found.value]] + ListDelete(ds, found.value)];
      }
      o := Pass;
    }

    /** Hit-test, then record the point as the drag position; a failed hit test changes nothing. */
    method MoveAndCheckBounds(zone: int, p: Point, isValid: Validator) returns (o: Outcome)
      modifies this
      requires Valid()
      ensures Valid()
      ensures o.Fail? <==> old(dragTargets).Some? && zone !in old(zones)
      ensures o.Fail? ==> zones == old(zones) && dropTarget == old(dropTarget) && dragPosition == old(dragPosition)
      ensures o.Pass? ==> dragPosition == Some(p) && changes == old(changes) + 1
      ensures o.Fail? ==> changes == old(changes)
      ensures o.Pass? && old(dragTargets).None? ==> zones == old(zones) && dropTarget == old(dropTarget)
      ensures old(dragTargets).Some? && o.Pass? ==>
        var r := Resolve(old(zones)[zone], old(dragTargets).value, p, isValid);
        dropTarget == r.dropTarget && zones == old(zones)[zone := r.list]
      ensures dragTargets == old(dragTargets) && pastDragTargets == old(pastDragTargets) && drops == old(drops)
    {
      o := CheckBounds(zone, p, isValid);
      if o.Pass? {
        dragPosition := Some(p);
        changes := changes + 1;
      }
    }
  }

  /**
   * One whole drag: start, move once over a zone, stop. The drop handler
   * runs once exactly when the first droppable under the point is valid,
   * and is handed that droppable's model object.
   */
  method OneDrag(store: DragAndDropStore, zone: int, targets: seq<int>, p: Point, isValid: Validator)
    returns (o: Outcome)
    modifies store
    requires store.Valid() && zone in store.zones
    ensures store.Valid() && o.Pass?
    ensures var k := FirstCompatible(old(store.zones)[zone], targets, p, isValid);
      && (k.Some? && isValid(old(store.zones)[zone][k.value], targets, p).valid ==>
            store.drops == old(store.drops) + [old(store.zones)[zone][k.value].keyObject])
      && (!(k.Some? && isValid(old(store.zones)[zone][k.value], targets, p).valid) ==> store.drops == old(store.drops))
    ensures store.dragTargets.None? && store.dropTarget.None? && store.pastDragTargets == Some(targets)
    ensures store.changes == old(store.changes) + 3
  {
    store.StartDragging(targets);
    o := store.MoveAndCheckBounds(zone, p, isValid);
    store.StopDragging();
  }
}
