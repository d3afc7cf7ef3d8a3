/**
 * Building a structure from a 3-D layer descriptor. The host lists the
 * scene nodes in pre-order and marks nesting with a child count on each
 * parent; the structure needs explicit GROUPEND markers instead, so one
 * marker node is spliced into the raw list for every parent with children.
 */
module GroupEnds {
  import opened Common
  import opened ElementModel
  import opened ElementStructure

  /** One raw scene node of the host payload, with the fields the structure reads. */
  datatype RawNode = RawNode(
    childCount: int,
    expansion: bool,
    isParent: bool,
    subType: int,
    nodeType: int,
    paramName: string)

  /** The host's node type of a group-end marker. */
  const GroupEndNodeType := 13

  /** The synthetic end marker spliced in after a parent's children. */
  const Marker := RawNode(1, false, false, 0, GroupEndNodeType, "</Element group>")

  /** A node that receives an end marker: flagged as a parent and with at least one child. */
  predicate Qualifies(n: RawNode) {
    n.childCount > 0 && n.isParent
  }

  /**
   * The insertion offset search, one step per loop iteration: from offset i
   * with `children` counted, skip the node and, when it has children, that
   * many further entries; the offset reached when the count hits `count` is
   * the answer. None when the list runs out first (undefined in the source).
   */
  function InsertionIndexFrom(list: seq<RawNode>, count: int, i: nat, children: nat): (r: Option<int>)
    ensures r.Some? ==> r.value > i && count > children && r.value - i >= count - children
    decreases if i < |list| then |list| - i else 0
  {
    if i >= |list| then None
    else
      var next := (if list[i].childCount > 0 then i + list[i].childCount else i) + 1;
      if children + 1 == count then Some(next)
      else InsertionIndexFrom(list, count, next, children + 1)
  }

  /**
   * The offset after the first `count` top-level entries of the list; a
   * count that is not positive is never reached, and the offset skips at
   * least `count` entries.
   */
  function InsertionIndex(list: seq<RawNode>, count: int): (r: Option<int>)
    ensures r.Some? ==> 1 <= count <= r.value
  {
    InsertionIndexFrom(list, count, 0, 0)
  }

  /**
   * The counting loop: how far after a parent its end marker belongs. The
   * result, when there is one, is past at least `count` entries.
   */
  method GetInsertionIndex(list: seq<RawNode>, count: int) returns (r: Option<int>)
    ensures r == InsertionIndex(list, count)
    ensures r.Some? ==> count >= 1 && r.value >= count
  {
    var children: nat := 0;
    var i: nat := 0;
    while i < |list|
      invariant children <= i
      invariant InsertionIndexFrom(list, count, i, children) == InsertionIndex(list, count)
      decreases |list| - i
    {
      var next := i;
      if list[i].childCount > 0 {
        next := next + list[i].childCount;
      }
      next := next + 1;
      children := children + 1;
      if children == count {
        return Some(next);
      }
      i := next;
    }
    return None;
  }

  /** Splice a value in at position p, or append it when p is past the end. */
  function InsertAt<T>(xs: seq<T>, p: nat, v: T): (r: seq<T>)
    ensures |r| == |xs| + 1
    ensures var q := if p < |xs| then p else |xs|;
      && r[q] == v
      && (forall c :: 0 <= c < q ==> r[c] == xs[c])
      && (forall c :: q <= c < |xs| ==> r[c + 1] == xs[c])
  {
    var q := if p < |xs| then p else |xs|;
    xs[..q] + [v] + xs[q..]
  }

  /** The number of nodes that receive a marker. */
  function Qualifying(xs: seq<RawNode>): nat {
    if xs == [] then 0 else (if Qualifies(xs[0]) then 1 else 0) + Qualifying(xs[1..])
  }

  lemma {:induction false} QualifyingConcat(a: seq<RawNode>, b: seq<RawNode>)
    ensures Qualifying(a + b) == Qualifying(a) + Qualifying(b)
  {
    if a == [] {
      assert a + b == b;
    } else {
      assert (a + b)[1..] == a[1..] + b;
      QualifyingConcat(a[1..], b);
    }
  }

  /** Splicing in a marker past position i leaves the qualifying count of the suffix after i unchanged. */
  lemma MarkerKeepsCount(t: seq<RawNode>, i: nat, p: nat)
    requires i < |t| && p > i
    ensures Qualifying(InsertAt(t, p, Marker)[i + 1..]) == Qualifying(t[i + 1..])
    ensures Qualifying(t[i..]) == (if Qualifies(t[i]) then 1 else 0) + Qualifying(t[i + 1..])
  {
    var q := if p < |t| then p else |t|;
    var u := InsertAt(t, p, Marker);
    assert u[i + 1..] == t[i + 1..q] + [Marker] + t[q..];
    assert t[i + 1..] == t[i + 1..q] + t[q..];
    QualifyingConcat(t[i + 1..q] + [Marker], t[q..]);
    QualifyingConcat(t[i + 1..q], [Marker]);
    QualifyingConcat(t[i + 1..q], t[q..]);
    assert Qualifying([Marker]) == 0 by { assert [Marker][1..] == []; }
    assert t[i..][1..] == t[i + 1..];
  }

  /**
   * The marker loop from position i on, one step per iteration: a parent
   * with children gets a marker spliced in after its children; the loop
   * then moves on to the next position. Err when the children cannot be
   * counted out before the list ends; the source then splices at position
   * 0 and revisits the same parent forever. A list with no qualifying
   * node from i on comes back unchanged.
   */
  function InsertEndsFrom(t: seq<RawNode>, i: nat): (r: Result<seq<RawNode>>)
    ensures i <= |t| && Qualifying(t[i..]) == 0 ==> r == Ok(t)
    decreases if i <= |t| then |t| - i + Qualifying(t[i..]) else 0
  {
    if i >= |t| then Ok(t)
    else
      assert t[i..][1..] == t[i + 1..];
      match EndStep(t, i)
      case Err(msg) => Err(msg)
      case Ok(u) =>
        InsertEndsFrom(u, i + 1)
  }

  /**
   * One iteration of the marker loop at position i: a qualifying node gets
   * its marker spliced in after its counted children; any other node leaves
   * the list as it is. The qualifying nodes after i are the same ones.
   */
  function EndStep(t: seq<RawNode>, i: nat): (r: Result<seq<RawNode>>)
    requires i < |t|
    ensures !Qualifies(t[i]) ==> r == Ok(t)
    ensures Qualifies(t[i]) ==>
      match InsertionIndex(t[i + 1..], t[i].childCount)
      case None => r.Err?
      case Some(q) => r == Ok(InsertAt(t, i + 1 + q, Marker))
    ensures r.Ok? ==>
      && |r.value| == |t| + (if Qualifies(t[i]) then 1 else 0)
      && r.value[..i + 1] == t[..i + 1]
      && Qualifying(t[i..]) == (if Qualifies(t[i]) then 1 else 0) + Qualifying(r.value[i + 1..])
  {
    if Qualifies(t[i]) then
      match InsertionIndex(t[i + 1..], t[i].childCount)
      case None => Err("no place for the group end")
      case Some(q) =>
        MarkerKeepsCount(t, i, i + 1 + q);
        var u := InsertAt(t, i + 1 + q, Marker);
        assert u[..i + 1] == t[..i + 1];
        Ok(u)
    else
      MarkerKeepsCount(t, i, i + 1);
      Ok(t)
  }

  /**
   * The loop from position i on leaves the positions before i alone and
   * adds one marker per qualifying node from i on.
   */
  lemma {:induction false} InsertEndsShape(t: seq<RawNode>, i: nat)
    requires i <= |t|
    ensures InsertEndsFrom(t, i).Ok? ==>
      && |InsertEndsFrom(t, i).value| == |t| + Qualifying(t[i..])
      && InsertEndsFrom(t, i).value[..i] == t[..i]
    decreases |t| - i + Qualifying(t[i..])
  {
    if i == |t| {
      assert t[i..] == [];
    } else if EndStep(t, i).Ok? {
      var u := EndStep(t, i).value;
      InsertEndsShape(u, i + 1);
      var r := InsertEndsFrom(u, i + 1);
      if r.Ok? {
        assert r.value[..i] == r.value[..i + 1][..i];
        assert u[..i + 1][..i] == t[..i];
        assert t[..i + 1][..i] == t[..i];
      }
    }
  }

  /**
   * The source's in-place splicing loop over the raw list: every parent
   * with children gets one end marker, and the list grows by one per such
   * parent.
   */
  method InsertGroupEnds(sceneTree: seq<RawNode>) returns (r: Result<seq<RawNode>>)
    ensures r == InsertEndsFrom(sceneTree, 0)
    ensures r.Ok? ==> |r.value| == |sceneTree| + Qualifying(sceneTree)
  {
    InsertEndsShape(sceneTree, 0);
    assert sceneTree[0..] == sceneTree;
    var tree := sceneTree;
    var i := 0;
    while i < |tree|
      invariant i <= |tree|
      invariant InsertEndsFrom(tree, i) == InsertEndsFrom(sceneTree, 0)
      decreases |tree| - i + Qualifying(tree[i..])
    {
      var node := tree[i];
      var step := EndStep(tree, i);
      if node.childCount > 0 && node.isParent {
        var groupEndIndex := GetInsertionIndex(tree[i + 1..], node.childCount);
        if groupEndIndex.None? {
          return Err("no place for the group end");
        }
        tree := InsertAt(tree, i + 1 + groupEndIndex.value, Marker);
      }
      assert tree == step.value;
      i := i + 1;
    }
    assert tree[..] == tree[..i];
    return Ok(tree);
  }

  /**
   * Group/marker pairing: each pair (g, m) has a qualifying node at g and a
   * marker at m > g; no two pairs share a group or a marker; and every
   * qualifying node before position i has a pair.
   */
  predicate Paired(t: seq<RawNode>, i: int, ps: seq<(int, int)>) {
    && (forall k :: 0 <= k < |ps| ==>
          0 <= ps[k].0 < ps[k].1 < |t| && ps[k].0 < i && Qualifies(t[ps[k].0]) && t[ps[k].1] == Marker)
    && (forall k, l :: 0 <= k < l < |ps| ==> ps[k].0 != ps[l].0 && ps[k].1 != ps[l].1)
    && (forall g :: 0 <= g < i && g < |t| && Qualifies(t[g]) ==> exists k :: 0 <= k < |ps| && ps[k].0 == g)
  }

  /** Shift the marker positions at or after q by one, for a value spliced in at q. */
  function ShiftMarkers(ps: seq<(int, int)>, q: int): (r: seq<(int, int)>)
    ensures |r| == |ps|
    ensures forall k :: 0 <= k < |ps| ==> r[k] == (ps[k].0, if ps[k].1 >= q then ps[k].1 + 1 else ps[k].1)
  {
    seq(|ps|, k requires 0 <= k < |ps| => (ps[k].0, if ps[k].1 >= q then ps[k].1 + 1 else ps[k].1))
  }

  /** After a marker step, every pair still points at a qualifying node and a later marker. */
  lemma PairStepBounds(t: seq<RawNode>, i: nat, p: nat, ps: seq<(int, int)>)
    requires i < p <= |t| && Qualifies(t[i]) && Paired(t, i, ps)
    ensures var u, ps' := InsertAt(t, p, Marker), ShiftMarkers(ps, p) + [(i, p)];
      forall k :: 0 <= k < |ps'| ==>
        0 <= ps'[k].0 < ps'[k].1 < |u| && ps'[k].0 < i + 1 && Qualifies(u[ps'[k].0]) && u[ps'[k].1] == Marker
  {
    var u := InsertAt(t, p, Marker);
    var sh := ShiftMarkers(ps, p);
    var ps' := sh + [(i, p)];
    forall k | 0 <= k < |ps'|
      ensures 0 <= ps'[k].0 < ps'[k].1 < |u| && ps'[k].0 < i + 1 && Qualifies(u[ps'[k].0]) && u[ps'[k].1] == Marker
    {
      if k < |ps| {
        var m := ps[k].1;
        assert ps'[k] == sh[k];
        assert u[ps[k].0] == t[ps[k].0];
        if m >= p {
          assert u[m + 1] == t[m];
        } else {
          assert u[m] == t[m];
        }
      }
    }
  }

  /** After a marker step, no two pairs share a node or a marker. */
  lemma PairStepDistinct(t: seq<RawNode>, i: nat, p: nat, ps: seq<(int, int)>)
    requires i < p <= |t| && Paired(t, i, ps)
    ensures var ps' := ShiftMarkers(ps, p) + [(i, p)];
      forall k, l :: 0 <= k < l < |ps'| ==> ps'[k].0 != ps'[l].0 && ps'[k].1 != ps'[l].1
  {
    var sh := ShiftMarkers(ps, p);
    var ps' := sh + [(i, p)];
    forall k, l | 0 <= k < l < |ps'| ensures ps'[k].0 != ps'[l].0 && ps'[k].1 != ps'[l].1 {
      assert ps'[k] == sh[k];
      if l < |ps| {
        assert ps'[l] == sh[l];
      }
    }
  }

  /** After a marker step, every qualifying node up to the one just passed has a pair. */
  lemma PairStepCovers(t: seq<RawNode>, i: nat, p: nat, ps: seq<(int, int)>)
    requires i < p <= |t| && Paired(t, i, ps)
    ensures var u, ps' := InsertAt(t, p, Marker), ShiftMarkers(ps, p) + [(i, p)];
      forall g :: 0 <= g < i + 1 && g < |u| && Qualifies(u[g]) ==> exists k :: 0 <= k < |ps'| && ps'[k].0 == g
  {
    var u := InsertAt(t, p, Marker);
    var sh := ShiftMarkers(ps, p);
    var ps' := sh + [(i, p)];
    forall g | 0 <= g < i + 1 && g < |u| && Qualifies(u[g]) ensures exists k :: 0 <= k < |ps'| && ps'[k].0 == g {
      if g == i {
        assert ps'[|ps|].0 == g;
      } else {
        assert u[g] == t[g];
        var k :| 0 <= k < |ps| && ps[k].0 == g;
        assert ps'[k] == sh[k];
      }
    }
  }

  /** One marker step keeps the pairing and extends it to the parent just passed. */
  lemma PairStep(t: seq<RawNode>, i: nat, p: nat, ps: seq<(int, int)>)
    requires i < p <= |t| && Qualifies(t[i]) && Paired(t, i, ps)
    ensures Paired(InsertAt(t, p, Marker), i + 1, ShiftMarkers(ps, p) + [(i, p)])
  {
    PairStepBounds(t, i, p, ps);
    PairStepDistinct(t, i, p, ps);
    PairStepCovers(t, i, p, ps);
  }

  /** Skipping a node that gets no marker keeps the pairing. */
  lemma PairSkip(t: seq<RawNode>, i: nat, ps: seq<(int, int)>)
    requires i < |t| && !Qualifies(t[i]) && Paired(t, i, ps)
    ensures Paired(t, i + 1, ps)
  {
    forall g | 0 <= g < i + 1 && g < |t| && Qualifies(t[g]) ensures exists k :: 0 <= k < |ps| && ps[k].0 == g {
      assert g != i;
    }
  }

  /**
   * Continuing the loop from a paired state ends in a list where every
   * qualifying node has its own later marker; the pairs are returned.
   */
  lemma {:induction false} InsertEndsPairedFrom(t: seq<RawNode>, i: nat, ps: seq<(int, int)>)
    returns (pairs: seq<(int, int)>)
    requires i <= |t| && Paired(t, i, ps)
    ensures InsertEndsFrom(t, i).Ok? ==>
      var r := InsertEndsFrom(t, i).value; Paired(r, |r|, pairs)
    decreases |t| - i + Qualifying(t[i..])
  {
    pairs := ps;
    if i < |t| && EndStep(t, i).Ok? {
      var u := EndStep(t, i).value;
      if Qualifies(t[i]) {
        var q := InsertionIndex(t[i + 1..], t[i].childCount).value;
        var p := if i + 1 + q < |t| then i + 1 + q else |t|;
        assert u == InsertAt(t, i + 1 + q, Marker) == InsertAt(t, p, Marker);
        PairStep(t, i, p, ps);
        pairs := InsertEndsPairedFrom(u, i + 1, ShiftMarkers(ps, p) + [(i, p)]);
      } else {
        PairSkip(t, i, ps);
        pairs := InsertEndsPairedFrom(u, i + 1, ps);
      }
    }
  }

  /**
   * After the marker loop, every parent with children is paired with its
   * own marker at a later position, no marker serving two parents.
   */
  lemma InsertEndsPaired(t: seq<RawNode>)
    ensures InsertEndsFrom(t, 0).Ok? ==>
      var r := InsertEndsFrom(t, 0).value;
      exists ps :: Paired(r, |r|, ps)
  {
    var ps := InsertEndsPairedFrom(t, 0, []);
  }

  /**
   * The marker placement the loop above is meant to achieve. The raw list
   * is the pre-order of the scene with each node's direct child count, so a
   * node's subtree is the node followed by that many subtrees; a parent's
   * marker belongs after its whole subtree. The loop skips only a child's
   * own child count, which is the subtree size only when the grandchildren
   * are leaves: from three levels of nesting on, markers land too early.
   * Returns the subtree starting at pos with its markers, and the position
   * after it; None when a child count runs past the end of the list.
   */
  function SubtreeEnds(raw: seq<RawNode>, pos: nat): (r: Option<(seq<RawNode>, nat)>)
    requires pos <= |raw|
    ensures r.Some? ==> pos < r.value.1 <= |raw|
    decreases |raw| - pos, 0, 0
  {
    if pos == |raw| then None
    else
      var n := raw[pos];
      if n.childCount > 0 then
        match ForestEnds(raw, pos + 1, n.childCount)
        case None => None
        case Some((kids, next)) =>
          Some(([n] + kids + (if n.isParent then [Marker] else []), next))
      else Some(([n], pos + 1))
  }

  /** The next `count` sibling subtrees from pos, with their markers. */
  function ForestEnds(raw: seq<RawNode>, pos: nat, count: nat): (r: Option<(seq<RawNode>, nat)>)
    requires pos <= |raw|
    ensures r.Some? ==> pos <= r.value.1 <= |raw|
    decreases |raw| - pos, 1, count
  {
    if count == 0 then Some(([], pos))
    else
      match SubtreeEnds(raw, pos)
      case None => None
      case Some((first, mid)) =>
        match ForestEnds(raw, mid, count - 1)
        case None => None
        case Some((rest, next)) => Some((first + rest, next))
  }

  /** The whole raw list from pos on, subtree after subtree, with the markers placed after each subtree. */
  function NestedEndsFrom(raw: seq<RawNode>, pos: nat): (r: Result<seq<RawNode>>)
    requires pos <= |raw|
    decreases |raw| - pos
  {
    if pos == |raw| then Ok([])
    else
      match SubtreeEnds(raw, pos)
      case None => Err("no place for the group end")
      case Some((first, next)) =>
        match NestedEndsFrom(raw, next)
        case Err(msg) => Err(msg)
        case Ok(rest) => Ok(first + rest)
  }

  /** The raw list with each parent's end marker after its whole subtree. */
  function NestedEnds(raw: seq<RawNode>): (r: Result<seq<RawNode>>) {
    NestedEndsFrom(raw, 0)
  }

  /** Nesting weight: a node that gets a marker opens a level, the marker closes it. */
  function NestWeight(n: RawNode): int {
    if Qualifies(n) then 1 else if n == Marker then -1 else 0
  }

  /** The nesting depth reached after the nodes of xs. */
  function NestSum(xs: seq<RawNode>): int {
    if xs == [] then 0 else NestSum(xs[..|xs| - 1]) + NestWeight(xs[|xs| - 1])
  }

  lemma {:induction false} NestSumConcat(a: seq<RawNode>, b: seq<RawNode>)
    ensures NestSum(a + b) == NestSum(a) + NestSum(b)
    decreases |b|
  {
    if b != [] {
      assert (a + b)[..|a + b| - 1] == a + b[..|b| - 1];
      NestSumConcat(a, b[..|b| - 1]);
    } else {
      assert a + b == a;
    }
  }

  /** The list with the markers taken out. */
  function Unmarked(xs: seq<RawNode>): (r: seq<RawNode>)
    ensures forall i :: 0 <= i < |r| ==> r[i] != Marker
  {
    Filter(xs, n => n != Marker)
  }

  /** A raw host list, which has no synthetic markers of its own. */
  predicate NoMarkers(raw: seq<RawNode>) {
    forall i :: 0 <= i < |raw| ==> raw[i] != Marker
  }

  /**
   * A list whose depth never drops below zero and ends at zero: every
   * level opened is closed later, and nothing is closed that was not opened.
   */
  predicate Nested(xs: seq<RawNode>) {
    && NestSum(xs) == 0
    && (forall k :: 0 <= k <= |xs| ==> NestSum(xs[..k]) >= 0)
  }

  /** Two nested lists in a row are nested. */
  lemma NestedConcat(a: seq<RawNode>, b: seq<RawNode>)
    requires Nested(a) && Nested(b)
    ensures Nested(a + b)
  {
    NestSumConcat(a, b);
    forall k | 0 <= k <= |a + b| ensures NestSum((a + b)[..k]) >= 0 {
      if k <= |a| {
        assert (a + b)[..k] == a[..k];
      } else {
        assert (a + b)[..k] == a + b[..k - |a|];
        NestSumConcat(a, b[..k - |a|]);
      }
    }
  }

  /** The markers taken out, a subtree with its markers is exactly the raw nodes it consumed. */
  lemma {:induction false} SubtreeUnmarked(raw: seq<RawNode>, pos: nat)
    requires pos <= |raw| && NoMarkers(raw)
    ensures SubtreeEnds(raw, pos).Some? ==>
      Unmarked(SubtreeEnds(raw, pos).value.0) == raw[pos..SubtreeEnds(raw, pos).value.1]
    decreases |raw| - pos, 0, 0
  {
    if pos < |raw| && SubtreeEnds(raw, pos).Some? {
      var n := raw[pos];
      var next := SubtreeEnds(raw, pos).value.1;
      if n.childCount > 0 {
        var kids := ForestEnds(raw, pos + 1, n.childCount).value.0;
        ForestUnmarked(raw, pos + 1, n.childCount);
        var tail: seq<RawNode> := if n.isParent then [Marker] else [];
        FilterConcat([n], kids, (m: RawNode) => m != Marker);
        FilterConcat([n] + kids, tail, (m: RawNode) => m != Marker);
        assert Unmarked(tail) == [] by {
          if n.isParent { assert [Marker][1..] == []; }
        }
        SliceCons(raw, pos, next);
      } else {
        assert raw[pos..next] == [n];
      }
    }
  }

  /** The markers taken out, a run of sibling subtrees is exactly the raw nodes it consumed. */
  lemma {:induction false} ForestUnmarked(raw: seq<RawNode>, pos: nat, count: nat)
    requires pos <= |raw| && NoMarkers(raw)
    ensures ForestEnds(raw, pos, count).Some? ==>
      Unmarked(ForestEnds(raw, pos, count).value.0) == raw[pos..ForestEnds(raw, pos, count).value.1]
    decreases |raw| - pos, 1, count
  {
    if count == 0 {
      assert raw[pos..pos] == [];
    } else if ForestEnds(raw, pos, count).Some? {
      var (first, mid) := SubtreeEnds(raw, pos).value;
      var (rest, next) := ForestEnds(raw, mid, count - 1).value;
      assert ForestEnds(raw, pos, count).value == (first + rest, next);
      SubtreeUnmarked(raw, pos);
      ForestUnmarked(raw, mid, count - 1);
      calc {
        Unmarked(first + rest);
        { FilterConcat(first, rest, (m: RawNode) => m != Marker); }
        Unmarked(first) + Unmarked(rest);
        raw[pos..mid] + raw[mid..next];
        { SliceConcat(raw, pos, mid, next); }
        raw[pos..next];
      }
    }
  }

  /** A subtree with its markers has one marker per node that qualifies for one. */
  lemma {:induction false} SubtreeLength(raw: seq<RawNode>, pos: nat)
    requires pos <= |raw|
    ensures SubtreeEnds(raw, pos).Some? ==>
      var (out, next) := SubtreeEnds(raw, pos).value;
      |out| == next - pos + Qualifying(raw[pos..next])
    decreases |raw| - pos, 0, 0
  {
    if pos < |raw| && SubtreeEnds(raw, pos).Some? {
      var n := raw[pos];
      var next := SubtreeEnds(raw, pos).value.1;
      assert Qualifying([n]) == (if Qualifies(n) then 1 else 0) by { assert [n][1..] == []; }
      if n.childCount > 0 {
        ForestLength(raw, pos + 1, n.childCount);
        SliceCons(raw, pos, next);
        QualifyingConcat([n], raw[pos + 1..next]);
      } else {
        assert raw[pos..next] == [n];
      }
    }
  }

  /** A run of sibling subtrees has one marker per node that qualifies for one. */
  lemma {:induction false} ForestLength(raw: seq<RawNode>, pos: nat, count: nat)
    requires pos <= |raw|
    ensures ForestEnds(raw, pos, count).Some? ==>
      var (out, next) := ForestEnds(raw, pos, count).value;
      |out| == next - pos + Qualifying(raw[pos..next])
    decreases |raw| - pos, 1, count
  {
    if count == 0 {
      assert raw[pos..pos] == [];
    } else if ForestEnds(raw, pos, count).Some? {
      var (first, mid) := SubtreeEnds(raw, pos).value;
      var (rest, next) := ForestEnds(raw, mid, count - 1).value;
      SubtreeLength(raw, pos);
      ForestLength(raw, mid, count - 1);
      assert raw[pos..next] == raw[pos..mid] + raw[mid..next];
      QualifyingConcat(raw[pos..mid], raw[mid..next]);
    }
  }

  /**
   * A subtree with its markers is nested, and when its head gets a marker
   * that level stays open until the very last entry: all of the head's
   * descendants lie inside it.
   */
  lemma {:induction false} SubtreeNested(raw: seq<RawNode>, pos: nat)
    requires pos <= |raw| && NoMarkers(raw)
    ensures SubtreeEnds(raw, pos).Some? ==>
      var out := SubtreeEnds(raw, pos).value.0;
      && Nested(out)
      && (Qualifies(raw[pos]) ==> forall k :: 1 <= k < |out| ==> NestSum(out[..k]) >= 1)
    decreases |raw| - pos, 0, 0
  {
    if pos < |raw| && SubtreeEnds(raw, pos).Some? {
      var n := raw[pos];
      assert n != Marker;
      if n.childCount > 0 {
        var f := ForestEnds(raw, pos + 1, n.childCount);
        assert f.Some?;
        ForestNested(raw, pos + 1, n.childCount);
        WrapNested(n, f.value.0);
      } else {
        LeafNested(n);
      }
    }
  }

  /** A node with no children that is not a marker is nested on its own. */
  lemma LeafNested(n: RawNode)
    requires n != Marker && n.childCount <= 0
    ensures Nested([n])
  {
    assert [n][..0] == [];
    forall k | 0 <= k <= 1 ensures NestSum([n][..k]) >= 0 {
      if k == 1 { assert [n][..k] == [n]; }
    }
  }

  /**
   * A node with children followed by its nested subtrees, and by a marker
   * exactly when it is a parent, is nested; when it receives the marker,
   * the depth stays above zero until the marker.
   */
  lemma WrapNested(n: RawNode, kids: seq<RawNode>)
    requires n != Marker && n.childCount > 0 && Nested(kids)
    ensures var out := [n] + kids + (if n.isParent then [Marker] else []);
      && Nested(out)
      && (Qualifies(n) ==> forall k :: 1 <= k < |out| ==> NestSum(out[..k]) >= 1)
  {
    var tail: seq<RawNode> := if n.isParent then [Marker] else [];
    var out := [n] + kids + tail;
    assert NestSum([n]) == NestWeight(n) by { assert [n][..0] == []; }
    NestSumConcat([n], kids);
    NestSumConcat([n] + kids, tail);
    assert NestSum(tail) == (if n.isParent then -1 else 0) by {
      if n.isParent { assert [Marker][..0] == []; }
    }
    forall k | 0 <= k <= |out| ensures NestSum(out[..k]) >= (if Qualifies(n) && 1 <= k < |out| then 1 else 0) {
      if k == 0 {
        assert out[..0] == [];
      } else if k <= 1 + |kids| {
        assert out[..k] == [n] + kids[..k - 1];
        NestSumConcat([n], kids[..k - 1]);
      } else {
        assert out[..k] == out;
      }
    }
  }

  /** A run of sibling subtrees with their markers is nested. */
  lemma {:induction false} ForestNested(raw: seq<RawNode>, pos: nat, count: nat)
    requires pos <= |raw| && NoMarkers(raw)
    ensures ForestEnds(raw, pos, count).Some? ==> Nested(ForestEnds(raw, pos, count).value.0)
    decreases |raw| - pos, 1, count
  {
    if count == 0 {
      var e: seq<RawNode> := [];
      assert Nested(e) by {
        forall k | 0 <= k <= 0 ensures NestSum(e[..k]) >= 0 { assert e[..k] == []; }
      }
    } else if ForestEnds(raw, pos, count).Some? {
      var (first, mid) := SubtreeEnds(raw, pos).value;
      var rest := ForestEnds(raw, mid, count - 1).value.0;
      SubtreeNested(raw, pos);
      ForestNested(raw, mid, count - 1);
      NestedConcat(first, rest);
    }
  }

  /**
   * The corrected placement keeps every raw node in order, adds one marker
   * per parent with children, and leaves the list nested.
   */
  lemma {:induction false} NestedEndsFromSound(raw: seq<RawNode>, pos: nat)
    requires pos <= |raw|
    ensures NestedEndsFrom(raw, pos).Ok? ==>
      |NestedEndsFrom(raw, pos).value| == |raw| - pos + Qualifying(raw[pos..])
    ensures NoMarkers(raw) && NestedEndsFrom(raw, pos).Ok? ==>
      var out := NestedEndsFrom(raw, pos).value;
      Unmarked(out) == raw[pos..] && Nested(out)
    decreases |raw| - pos
  {
    if pos == |raw| {
      var e: seq<RawNode> := [];
      assert raw[pos..] == e;
      assert Nested(e) by {
        forall k | 0 <= k <= 0 ensures NestSum(e[..k]) >= 0 { assert e[..k] == []; }
      }
    } else if NestedEndsFrom(raw, pos).Ok? {
      var (first, next) := SubtreeEnds(raw, pos).value;
      var rest := NestedEndsFrom(raw, next).value;
      assert NestedEndsFrom(raw, pos).value == first + rest;
      NestedEndsFromSound(raw, next);
      SubtreeLength(raw, pos);
      assert raw[pos..] == raw[pos..next] + raw[next..];
      QualifyingConcat(raw[pos..next], raw[next..]);
      if NoMarkers(raw) {
        SubtreeUnmarked(raw, pos);
        SubtreeNested(raw, pos);
        FilterConcat(first, rest, (m: RawNode) => m != Marker);
        NestedConcat(first, rest);
      }
    }
  }

  /** The whole raw list: order kept, one marker per parent with children, nested. */
  lemma NestedEndsSound(raw: seq<RawNode>)
    ensures NestedEnds(raw).Ok? ==> |NestedEnds(raw).value| == |raw| + Qualifying(raw)
    ensures NoMarkers(raw) && NestedEnds(raw).Ok? ==>
      Unmarked(NestedEnds(raw).value) == raw && Nested(NestedEnds(raw).value)
  {
    NestedEndsFromSound(raw, 0);
    assert raw[0..] == raw;
  }

  /** Three levels of nesting, A > B > C > E, each parent with one child. */
  const NestA := RawNode(1, true, true, 0, 1, "A")
  const NestB := RawNode(1, true, true, 0, 1, "B")
  const NestC := RawNode(1, true, true, 0, 1, "C")
  const NestE := RawNode(0, false, false, 0, 1, "E")

  /** The source's loop closes all three levels before E. */
  lemma ThreeLevelsAsWritten()
    ensures InsertEndsFrom([NestA, NestB, NestC, NestE], 0)
      == Ok([NestA, NestB, NestC, Marker, Marker, Marker, NestE])
  {
    var a, b, c, e := NestA, NestB, NestC, NestE;
    var t0 := [a, b, c, e];
    assert InsertionIndex(t0[1..], 1) == Some(2) by { assert t0[1..][0] == b; }
    var t1 := [a, b, c, Marker, e];
    assert InsertAt(t0, 3, Marker) == t1 by { assert t0[..3] + [Marker] + t0[3..] == t1; }
    assert EndStep(t0, 0) == Ok(t1);
    assert InsertionIndex(t1[2..], 1) == Some(2) by { assert t1[2..][0] == c; }
    var t2 := [a, b, c, Marker, Marker, e];
    assert InsertAt(t1, 4, Marker) == t2 by { assert t1[..4] + [Marker] + t1[4..] == t2; }
    assert EndStep(t1, 1) == Ok(t2);
    assert InsertionIndex(t2[3..], 1) == Some(2) by { assert t2[3..][0] == Marker; }
    var t3 := [a, b, c, Marker, Marker, Marker, e];
    assert InsertAt(t2, 5, Marker) == t3 by { assert t2[..5] + [Marker] + t2[5..] == t3; }
    assert EndStep(t2, 2) == Ok(t3);
    assert EndStep(t3, 3) == Ok(t3);
    assert EndStep(t3, 4) == Ok(t3);
    assert EndStep(t3, 5) == Ok(t3);
    assert EndStep(t3, 6) == Ok(t3);
    assert InsertEndsFrom(t3, 7) == Ok(t3);
    assert InsertEndsFrom(t3, 6) == Ok(t3);
    assert InsertEndsFrom(t3, 5) == Ok(t3);
    assert InsertEndsFrom(t3, 4) == Ok(t3);
    assert InsertEndsFrom(t3, 3) == Ok(t3);
    assert InsertEndsFrom(t2, 2) == Ok(t3);
    assert InsertEndsFrom(t1, 1) == Ok(t3);
  }

  /** In that output the depth is back to zero before E: E lies outside A. */
  lemma ThreeLevelsClosedEarly()
    ensures NestSum([NestA, NestB, NestC, Marker, Marker, Marker]) == 0
  {
    var a, b, c := NestA, NestB, NestC;
    var m3 := [a, b, c, Marker, Marker, Marker];
    assert NestSum([a]) == 1 by { assert [a][..0] == []; }
    assert NestSum([a, b]) == 2 by { assert [a, b][..1] == [a]; }
    assert NestSum([a, b, c]) == 3 by { assert [a, b, c][..2] == [a, b]; }
    assert NestSum([a, b, c, Marker]) == 2 by { assert [a, b, c, Marker][..3] == [a, b, c]; }
    assert NestSum([a, b, c, Marker, Marker]) == 1 by { assert [a, b, c, Marker, Marker][..4] == [a, b, c, Marker]; }
    assert NestSum(m3) == 0 by { assert m3[..5] == [a, b, c, Marker, Marker]; }
  }

  /** The corrected placement keeps E inside all three levels. */
  lemma ThreeLevelsCorrected()
    ensures NestedEnds([NestA, NestB, NestC, NestE])
      == Ok([NestA, NestB, NestC, NestE, Marker, Marker, Marker])
  {
    var a, b, c, e := NestA, NestB, NestC, NestE;
    var t0 := [a, b, c, e];
    assert SubtreeEnds(t0, 3) == Some(([e], 4));
    assert ForestEnds(t0, 4, 0) == Some(([], 4));
    assert [e] + [] == [e];
    assert ForestEnds(t0, 3, 1) == Some(([e], 4));
    assert [c] + [e] + [Marker] == [c, e, Marker];
    assert SubtreeEnds(t0, 2) == Some(([c, e, Marker], 4));
    assert ForestEnds(t0, 2, 1) == Some(([c, e, Marker], 4)) by {
      assert [c, e, Marker] + [] == [c, e, Marker];
    }
    assert [b] + [c, e, Marker] + [Marker] == [b, c, e, Marker, Marker];
    assert SubtreeEnds(t0, 1) == Some(([b, c, e, Marker, Marker], 4));
    assert ForestEnds(t0, 1, 1) == Some(([b, c, e, Marker, Marker], 4)) by {
      assert [b, c, e, Marker, Marker] + [] == [b, c, e, Marker, Marker];
    }
    assert [a] + [b, c, e, Marker, Marker] + [Marker] == [a, b, c, e, Marker, Marker, Marker];
    assert SubtreeEnds(t0, 0) == Some(([a, b, c, e, Marker, Marker, Marker], 4));
    assert NestedEndsFrom(t0, 4) == Ok([]);
    assert [a, b, c, e, Marker, Marker, Marker] + [] == [a, b, c, e, Marker, Marker, Marker];
  }

  /**
   * The record the element constructor is given: the element model of the
   * 3-D layer declares a name and a kind, both null by default.
   */
  datatype ElementRecord = ElementRecord(name: Option<string>, kind: Option<int>)

  /**
   * Element creation as written: the parse helper builds the name and kind
   * of the node but hands nothing back, so the constructor receives no
   * fields and every raw node becomes the default record; neither the
   * node's name nor its type survives.
   */
  function FromRawElementAsWritten(n: RawNode): (e: ElementRecord)
    ensures e.name != Some(n.paramName) && e.kind != Some(n.nodeType)
  {
    ElementRecord(None, None)
  }

  /** As written, any two raw nodes, however different, give the same record. */
  lemma RawElementsCollapse(a: RawNode, b: RawNode)
    ensures FromRawElementAsWritten(a) == FromRawElementAsWritten(b)
    ensures a.paramName != b.paramName ==>
      FromRawElement(a, 0).name != FromRawElement(b, 0).name
  {
  }

  /**
   * The element the structure keeps for the raw node at position i: its id
   * is the position, a marker node (type 13, not flagged as a parent) is a
   * GROUPEND, and the parent flag is kept so that the node opens a level in
   * the scene tree.
   */
  function FromRawElement(n: RawNode, i: int): (e: Element)
    ensures e.id == i && e.name == n.paramName
    ensures e.isParent == n.isParent && e.expanded == n.expansion
    ensures e.kind == GroupEnd <==> n.nodeType == GroupEndNodeType && !n.isParent
  {
    var kind := if n.nodeType == GroupEndNodeType && !n.isParent then GroupEnd else Other(n.nodeType);
    NewElement(i, n.paramName, kind, n.isParent).(expanded := n.expansion)
  }

  /** The positions n - 1 down to 0. */
  function Descending(n: nat): (r: seq<int>)
    ensures |r| == n
    ensures forall j :: 0 <= j < n ==> r[j] == n - 1 - j
  {
    if n == 0 then [] else [n - 1] + Descending(n - 1)
  }

  /** The elements of the first n raw nodes, keyed by position. */
  function ElementsOf(tree: seq<RawNode>, n: nat): (m: map<int, Element>)
    requires n <= |tree|
    ensures |m| == n
    ensures forall k :: k in m <==> 0 <= k < n
    ensures forall k :: k in m ==> m[k] == FromRawElement(tree[k], k)
  {
    var keys := Positions(n);
    var m := map k | k in keys :: FromRawElement(tree[k], k);
    assert m.Keys == keys;
    m
  }

  /** The positions 0 .. n - 1. */
  function Positions(n: nat): (r: set<int>)
    ensures forall k :: k in r <==> 0 <= k < n
    ensures |r| == n
  {
    if n == 0 then {} else Positions(n - 1) + {n - 1}
  }

  /**
   * The structure of a layer descriptor: empty without a 3-D layer;
   * otherwise the raw nodes with their end markers, keyed by position, and
   * an index that lists the positions from last to first.
   */
  function FromLayerDescriptor(sceneTree: Option<seq<RawNode>>): (r: Result<Structure>)
    ensures sceneTree.None? ==> r == Ok(Structure(map[], []))
    ensures r.Ok? ==> Valid(r.value) && |r.value.index| == |r.value.elements|
    ensures r.Ok? && sceneTree.Some? ==>
      |r.value.index| == |sceneTree.value| + Qualifying(sceneTree.value)
  {
    match sceneTree
    case None => Ok(Structure(map[], []))
    case Some(raw) =>
      match NestedEnds(raw)
      case Err(msg) => Err(msg)
      case Ok(tree) =>
        NestedEndsSound(raw);
        var index := Descending(|tree|);
        assert NoDup(index) by {
          forall i, j | 0 <= i < j < |index| ensures index[i] != index[j] { }
        }
        Ok(Structure(ElementsOf(tree, |tree|), index))
  }

  /** What the descriptor conversion keeps as written: default records keyed by position, and an index. */
  datatype RecordStructure = RecordStructure(elements: map<int, ElementRecord>, index: seq<int>)

  /**
   * The descriptor conversion as written: the source's marker loop, then
   * one record per resulting node keyed by its position (each the default
   * record, as element creation is written), and the keys in reverse as the
   * index. It fails exactly when the marker loop does.
   */
  function FromLayerDescriptorAsWritten(sceneTree: Option<seq<RawNode>>): (r: Result<RecordStructure>)
    ensures sceneTree.None? ==> r == Ok(RecordStructure(map[], []))
    ensures sceneTree.Some? ==> (r.Ok? <==> InsertEndsFrom(sceneTree.value, 0).Ok?)
    ensures r.Ok? && sceneTree.Some? ==>
      var n := |sceneTree.value| + Qualifying(sceneTree.value);
      && |r.value.index| == n
      && (forall j :: 0 <= j < n ==> r.value.index[j] == n - 1 - j)
      && (forall k :: k in r.value.elements <==> 0 <= k < n)
      && (forall k :: k in r.value.elements ==> r.value.elements[k] == ElementRecord(None, None))
  {
    match sceneTree
    case None => Ok(RecordStructure(map[], []))
    case Some(raw) =>
      match InsertEndsFrom(raw, 0)
      case Err(msg) => Err(msg)
      case Ok(tree) =>
        InsertEndsShape(raw, 0);
        assert raw[0..] == raw;
        var elements := map k | k in Positions(|tree|) :: FromRawElementAsWritten(tree[k]);
        Ok(RecordStructure(elements, Descending(|tree|)))
  }

  /**
   * Three levels of nesting through the conversion as written: seven
   * entries, the index from 6 down to 0, and the nested node E, now after
   * all three markers at position 6, is the default record.
   */
  lemma ThreeLevelsDescriptorAsWritten()
    ensures FromLayerDescriptorAsWritten(Some([NestA, NestB, NestC, NestE])).Ok?
    ensures var r := FromLayerDescriptorAsWritten(Some([NestA, NestB, NestC, NestE])).value;
      && r.index == [6, 5, 4, 3, 2, 1, 0]
      && 6 in r.elements && r.elements[6] == ElementRecord(None, None)
  {
    ThreeLevelsAsWritten();
    var t := [NestA, NestB, NestC, NestE];
    assert Qualifying([NestE]) == 0 by { assert [NestE][1..] == []; }
    assert Qualifying([NestC, NestE]) == 1 by { assert [NestC, NestE][1..] == [NestE]; }
    assert Qualifying([NestB, NestC, NestE]) == 2 by { assert [NestB, NestC, NestE][1..] == [NestC, NestE]; }
    assert Qualifying(t) == 3 by { assert t[1..] == [NestB, NestC, NestE]; }
  }

  /** Corrected, E keeps its name at position 3, before the three markers. */
  lemma ThreeLevelsDescriptorCorrected()
    ensures FromLayerDescriptor(Some([NestA, NestB, NestC, NestE])).Ok?
    ensures var r := FromLayerDescriptor(Some([NestA, NestB, NestC, NestE])).value;
      3 in r.elements && r.elements[3].name == "E"
  {
    ThreeLevelsCorrected();
  }
}
