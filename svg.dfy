/**
 * The icon classes of the layer faces and of library graphics: a layer's
 * class from its kind, and a list of classes from a list of layer type
 * names.
 */
module Svg {
  import opened Common
  import opened ElementModel

  // ----- one layer's icon -----

  /** The class string ends with the linked marker. */
  predicate EndsLinked(r: string) {
    |r| >= 7 && r[|r| - 7..] == "-linked"
  }

  /** A number as string concatenation writes it never ends with the linked marker. */
  lemma NumberNotLinked(prefix: string, v: int)
    ensures !EndsLinked(prefix + IntToString(v))
  {
    var t := IntToString(v);
    var r := prefix + t;
    assert r[|r| - 1] == t[|t| - 1];
    assert '0' <= t[|t| - 1] <= '9';
  }

  /**
   * getSVGClassFromLayer: "layer-" and then "artboard" for an artboard, the
   * pixel kind for a background, the kind and the linked marker for a
   * linked smart object, and the kind otherwise. Kinds are the adapter's
   * numbers, given here as kindValue.
   */
  function LayerClass(layer: Element, kindValue: Kind -> int): (r: string)
    ensures |r| > 6 && r[..6] == "layer-"
    ensures layer.isArtboard ==> r == "layer-artboard"
    ensures !layer.isArtboard && layer.kind == Background ==> r == "layer-" + IntToString(kindValue(Pixel))
    ensures !layer.isArtboard && layer.kind != Background && layer.kind == SmartObject && layer.isLinked ==>
      r == "layer-" + IntToString(kindValue(SmartObject)) + "-linked"
    ensures !layer.isArtboard && layer.kind != Background && !(layer.kind == SmartObject && layer.isLinked) ==>
      r == "layer-" + IntToString(kindValue(layer.kind))
  {
    "layer-" +
      if layer.isArtboard then "artboard"
      else if layer.kind == Background then IntToString(kindValue(Pixel))
      else if layer.kind == SmartObject && layer.isLinked then IntToString(kindValue(layer.kind)) + "-linked"
      else IntToString(kindValue(layer.kind))
  }

  /** The class carries the linked marker exactly for a linked smart object that is not an artboard. */
  lemma LayerClassLinked(layer: Element, kindValue: Kind -> int)
    ensures EndsLinked(LayerClass(layer, kindValue)) <==>
      !layer.isArtboard && layer.kind == SmartObject && layer.isLinked
  {
    var r := LayerClass(layer, kindValue);
    if layer.isArtboard {
      assert r[|r| - 7..] == "rtboard";
    } else if layer.kind == Background {
      NumberNotLinked("layer-", kindValue(Pixel));
    } else if layer.kind == SmartObject && layer.isLinked {
      var t := "layer-" + IntToString(kindValue(layer.kind));
      assert r == t + "-linked";
      assert r[|r| - 7..] == "-linked";
    } else {
      NumberNotLinked("layer-", kindValue(layer.kind));
    }
  }

  /** The artboard class is given exactly to artboards. */
  lemma LayerClassArtboard(layer: Element, kindValue: Kind -> int)
    ensures LayerClass(layer, kindValue) == "layer-artboard" <==> layer.isArtboard
  {
    var r := LayerClass(layer, kindValue);
    if !layer.isArtboard {
      if layer.kind == SmartObject && layer.isLinked {
        var v := IntToString(kindValue(layer.kind));
        assert r == "layer-" + v + "-linked";
        assert |v| == 1 ==> r[7] == '-';
      } else {
        var v := if layer.kind == Background then IntToString(kindValue(Pixel)) else IntToString(kindValue(layer.kind));
        assert r == "layer-" + v;
        assert r[|r| - 1] == v[|v| - 1];
      }
    }
  }

  // ----- icons for a list of layer type names -----

  /** The adapter's table of layer kinds: the number for each upper-case kind name. */
  type KindTable = map<string, int>

  /** A table entry as string concatenation writes it; a name the table lacks reads as undefined. */
  function KindText(table: KindTable, name: string): (r: string)
    ensures name in table ==> r == IntToString(table[name])
    ensures name !in table ==> r == "undefined"
  {
    if name in table then IntToString(table[name]) else "undefined"
  }

  /** toUpperCase on ASCII letters; other characters are kept. */
  function ToUpper(s: string): (r: string)
    ensures |r| == |s|
    ensures forall i :: 0 <= i < |s| ==> r[i] == (if 'a' <= s[i] <= 'z' then (s[i] as int - 32) as char else s[i])
  {
    if s == [] then [] else [if 'a' <= s[0] <= 'z' then (s[0] as int - 32) as char else s[0]] + ToUpper(s[1..])
  }

  /** The position of the first space in a string that has one. */
  function FirstSpace(s: string): (i: nat)
    requires ' ' in s
    ensures i < |s| && s[i] == ' ' && ' ' !in s[..i]
  {
    if s[0] == ' ' then 0
    else
      var k := FirstSpace(s[1..]);
      assert s[..k + 1] == [s[0]] + s[1..][..k];
      k + 1
  }

  /** replace(" ", ""): the first space, if any, is removed. */
  function RemoveFirstSpace(s: string): (r: string)
    ensures ' ' !in s ==> r == s
    ensures ' ' in s ==> r == s[..FirstSpace(s)] + s[FirstSpace(s) + 1..]
  {
    if s == [] then []
    else if s[0] == ' ' then s[1..]
    else
      var k := if ' ' in s[1..] then FirstSpace(s[1..]) else 0;
      assert ' ' in s[1..] ==> s[..k + 1] == [s[0]] + s[1..][..k] && s[k + 2..] == s[1..][k + 1..];
      [s[0]] + RemoveFirstSpace(s[1..])
  }

  /** The fill layer types, which have no icon of their own. */
  predicate IsFillType(kind: string) {
    kind == "solid color" || kind == "gradient" || kind == "pattern"
  }

  /**
   * The icon of one layer type name: the rectangle tool for fill types,
   * the artboard, the pixel kind for a background, the linked smart object
   * when the list counts as linked, and otherwise the table's number for
   * the upper-cased name.
   */
  function IconFor(kind: string, isLinked: bool, table: KindTable): (r: string)
    requires kind != "layer"
    ensures IsFillType(kind) ==> r == "tool-rectangle"
    ensures !IsFillType(kind) ==> |r| > 6 && r[..6] == "layer-"
    ensures kind == "artboard" ==> r == "layer-artboard"
    ensures kind == "background" ==> r == "layer-" + KindText(table, "PIXEL")
    ensures kind == "smart object" && isLinked ==> r == "layer-" + KindText(table, "SMARTOBJECT") + "-linked"
    ensures !IsFillType(kind) && kind != "artboard" && kind != "background" && !(kind == "smart object" && isLinked) ==>
      r == "layer-" + KindText(table, RemoveFirstSpace(ToUpper(kind)))
  {
    if IsFillType(kind) then "tool-rectangle"
    else if kind == "artboard" then "layer-artboard"
    else if kind == "background" then "layer-" + KindText(table, "PIXEL")
    else if kind == "smart object" && isLinked then "layer-" + KindText(table, "SMARTOBJECT") + "-linked"
    else "layer-" + KindText(table, RemoveFirstSpace(ToUpper(kind)))
  }

  /** Every type name except "layer" gets an icon. */
  predicate IsIconType(kind: string) {
    kind != "layer"
  }

  /**
   * The icons of a list of type names: one per name other than "layer", in
   * the order of the list.
   */
  function Icons(types: seq<string>, isLinked: bool, table: KindTable): (r: seq<string>)
    ensures |r| == |Filter(types, IsIconType)|
    ensures forall i :: 0 <= i < |r| ==> r[i] == IconFor(Filter(types, IsIconType)[i], isLinked, table)
  {
    if types == [] then []
    else
      var init, last := types[..|types| - 1], types[|types| - 1];
      var r := Icons(init, isLinked, table) + (if IsIconType(last) then [IconFor(last, isLinked, table)] else []);
      FilterSnoc(types, IsIconType);
      r
  }

  /** The list joined with single spaces. */
  function Join(types: seq<string>): (r: string)
    ensures types == [] ==> r == ""
    ensures |types| == 1 ==> r == types[0]
  {
    if types == [] then ""
    else if |types| == 1 then types[0]
    else Join(types[..|types| - 1]) + " " + types[|types| - 1]
  }

  /** The word occurs in the string at position i. */
  predicate WordAt(s: string, w: string, i: int) {
    0 <= i && i + |w| <= |s| && s[i..i + |w|] == w
  }

  /** The word occurs in the string: indexOf does not answer -1. */
  predicate HasWord(s: string, w: string) {
    exists i :: 0 <= i <= |s| - |w| && WordAt(s, w, i)
  }

  /** A word without spaces found in two strings joined by a space lies within one of them. */
  lemma HasWordSplit(a: string, b: string, w: string, i: int)
    requires ' ' !in w && WordAt(a + " " + b, w, i)
    ensures HasWord(a, w) || HasWord(b, w)
  {
    var s := a + " " + b;
    if i + |w| <= |a| {
      assert a[i..i + |w|] == s[i..i + |w|];
      assert WordAt(a, w, i);
    } else if i > |a| {
      var k := i - |a| - 1;
      assert s[|a| + 1..] == b;
      assert s[i..i + |w|] == s[|a| + 1..][k..k + |w|];
      assert WordAt(b, w, k);
    } else {
      SpaceInWindow(s, w, i, |a|);
      assert false;
    }
  }

  /** A window of the string that holds its space is not a word without spaces. */
  lemma SpaceInWindow(s: string, w: string, i: int, at: int)
    requires 0 <= i <= at < i + |w| <= |s| && s[at] == ' ' && ' ' !in w
    ensures s[i..i + |w|] != w
  {
    assert s[i..i + |w|][at - i] == ' ';
  }

  /** A word without spaces occurs in two strings joined by a space exactly when it occurs in one of them. */
  lemma HasWordJoined(a: string, b: string, w: string)
    requires ' ' !in w
    ensures HasWord(a + " " + b, w) <==> HasWord(a, w) || HasWord(b, w)
  {
    var s := a + " " + b;
    if HasWord(s, w) {
      var i :| 0 <= i <= |s| - |w| && WordAt(s, w, i);
      HasWordSplit(a, b, w, i);
    }
    if HasWord(a, w) {
      var i :| 0 <= i <= |a| - |w| && WordAt(a, w, i);
      assert s[i..i + |w|] == a[i..i + |w|];
      assert WordAt(s, w, i);
    }
    if HasWord(b, w) {
      var i :| 0 <= i <= |b| - |w| && WordAt(b, w, i);
      var k := i + |a| + 1;
      assert s[|a| + 1..] == b;
      assert s[k..k + |w|] == s[|a| + 1..][i..i + |w|];
      assert WordAt(s, w, k);
    }
  }

  /** A word without spaces occurs in the joined list exactly when it occurs in one of the names. */
  lemma {:induction false} HasWordJoin(types: seq<string>, w: string)
    requires w != [] && ' ' !in w
    ensures HasWord(Join(types), w) <==> exists j :: 0 <= j < |types| && HasWord(types[j], w)
  {
    if |types| > 1 {
      var init, last := types[..|types| - 1], types[|types| - 1];
      HasWordJoin(init, w);
      HasWordJoined(Join(init), last, w);
      if exists j :: 0 <= j < |init| && HasWord(init[j], w) {
        var j :| 0 <= j < |init| && HasWord(init[j], w);
        assert types[j] == init[j];
      }
      if exists j :: 0 <= j < |types| && HasWord(types[j], w) {
        var j :| 0 <= j < |types| && HasWord(types[j], w);
        if j < |init| {
          assert init[j] == types[j];
        }
      }
    }
  }

  /**
   * getSVGClassesFromLayerTypes, given the linked test: nothing for no
   * types; the rectangle tool alone for a single type or for a list whose
   * joined names do not mention "layer"; otherwise one icon per name other
   * than "layer".
   */
  function Classes(types: seq<string>, isLinked: bool, table: KindTable): (r: seq<string>)
    ensures types == [] ==> r == []
    ensures |types| == 1 ==> r == ["tool-rectangle"]
    ensures |types| >= 2 && HasWord(Join(types), "layer") ==> |r| == |Filter(types, IsIconType)|
  {
    if |types| == 0 then []
    else if |types| < 2 || !HasWord(Join(types), "layer") then ["tool-rectangle"]
    else Icons(types, isLinked, table)
  }

  /**
   * The join test asks whether some name mentions "layer": a list of two or
   * more names none of which does gets the rectangle tool alone, and
   * otherwise one icon per name other than "layer".
   */
  lemma ClassesByNames(types: seq<string>, isLinked: bool, table: KindTable)
    requires |types| >= 2
    ensures (forall j :: 0 <= j < |types| ==> !HasWord(types[j], "layer")) ==> Classes(types, isLinked, table) == ["tool-rectangle"]
    ensures (exists j :: 0 <= j < |types| && HasWord(types[j], "layer")) ==> Classes(types, isLinked, table) == Icons(types, isLinked, table)
  {
    HasWordJoin(types, "layer");
  }

  /**
   * lodash's has on an array: whether the array has an own property of that
   * name, that is an index written canonically, or its length.
   */
  predicate ArrayHas(types: seq<string>, key: string) {
    key == "length" || (Canonical(key) && DigitsValue(key) < |types|)
  }

  /** The test as written asks for a property named "linked", which no array has. */
  lemma ArrayHasLinkedNever(types: seq<string>)
    ensures !ArrayHas(types, "linked")
  {
    assert "linked"[0] == 'l';
  }

  /** getSVGClassesFromLayerTypes as written: the linked test is the property lookup. */
  function ClassesAsWritten(types: seq<string>, table: KindTable): (r: seq<string>)
    ensures r == Classes(types, false, table)
  {
    ArrayHasLinkedNever(types);
    Classes(types, ArrayHas(types, "linked"), table)
  }

  /**
   * getSVGClassesFromLayerTypes with the evident intent: the list counts as
   * linked when it names "linked"; without that name it answers as written.
   */
  function ClassesFixed(types: seq<string>, table: KindTable): (r: seq<string>)
    ensures "linked" !in types ==> r == ClassesAsWritten(types, table)
  {
    Classes(types, "linked" in types, table)
  }

  /** The name "layer" itself mentions "layer". */
  lemma LayerMentionsLayer()
    ensures HasWord("layer", "layer")
  {
    assert WordAt("layer", "layer", 0);
  }

  /**
   * With the evident test, a list that names "layer", a smart object and
   * "linked" shows the linked smart-object icon.
   */
  lemma ClassesFixedLinked(types: seq<string>, table: KindTable)
    requires "linked" in types && "smart object" in types && "layer" in types
    ensures exists i :: (0 <= i < |ClassesFixed(types, table)| &&
      ClassesFixed(types, table)[i] == "layer-" + KindText(table, "SMARTOBJECT") + "-linked")
  {
    var j :| 0 <= j < |types| && types[j] == "smart object";
    var l :| 0 <= l < |types| && types[l] == "layer";
    assert j != l;
    LayerMentionsLayer();
    ClassesByNames(types, true, table);
    var r := Icons(types, true, table);
    assert ClassesFixed(types, table) == r;
    var f := Filter(types, IsIconType);
    assert types[j] in f;
    var i :| 0 <= i < |f| && f[i] == types[j];
    assert r[i] == IconFor(f[i], true, table);
  }

  /** The icons of a list one name longer: the icons so far, and the new name's icon unless it is "layer". */
  lemma IconsStep(types: seq<string>, j: int, isLinked: bool, table: KindTable)
    requires 0 <= j < |types|
    ensures Icons(types[..j + 1], isLinked, table) ==
      Icons(types[..j], isLinked, table) + (if IsIconType(types[j]) then [IconFor(types[j], isLinked, table)] else [])
  {
    assert types[..j + 1][..j] == types[..j];
  }

  /**
   * The loop of getSVGClassesFromLayerTypes, with the evident linked test:
   * after the two early returns, one pass over the names that pushes the
   * icon of each name other than "layer".
   */
  method SvgClassesFromLayerTypes(types: seq<string>, table: KindTable) returns (iconIDs: seq<string>)
    ensures iconIDs == ClassesFixed(types, table)
  {
    if |types| == 0 {
      return [];
    }
    if |types| < 2 || !HasWord(Join(types), "layer") {
      return ["tool-rectangle"];
    }
    var isLinked := "linked" in types;
    iconIDs := [];
    var j := 0;
    while j < |types|
      invariant 0 <= j <= |types|
      invariant iconIDs == Icons(types[..j], isLinked, table)
    {
      IconsStep(types, j, isLinked, table);
      if types[j] != "layer" {
        iconIDs := iconIDs + [IconFor(types[j], isLinked, table)];
      }
      j := j + 1;
    }
    assert types[..j] == types;
  }

  /** A table with the smart object kind, and a list of a linked smart object. */
  const Table: KindTable := map["SMARTOBJECT" := 5, "PIXEL" := 1]
  const LinkedTypes: seq<string> := ["smart object", "layer", "linked"]

  /** A table entry, written after a prefix, never ends with the linked marker. */
  lemma KindTextNotLinked(prefix: string, table: KindTable, name: string)
    ensures !EndsLinked(prefix + KindText(table, name))
  {
    if name in table {
      NumberNotLinked(prefix, table[name]);
    } else {
      var r := prefix + "undefined";
      assert r[|r| - 7..] == "defined";
    }
  }

  /** Without the linked test, no icon carries the linked marker. */
  lemma IconNotLinked(kind: string, table: KindTable)
    requires kind != "layer"
    ensures !EndsLinked(IconFor(kind, false, table))
  {
    var r := IconFor(kind, false, table);
    if IsFillType(kind) {
      RectangleNotLinked();
    } else if kind == "artboard" {
      assert r[|r| - 7..] == "rtboard";
    } else if kind == "background" {
      KindTextNotLinked("layer-", table, "PIXEL");
    } else {
      KindTextNotLinked("layer-", table, RemoveFirstSpace(ToUpper(kind)));
    }
  }

  /** The rectangle tool's icon does not carry the linked marker. */
  lemma RectangleNotLinked()
    ensures !EndsLinked("tool-rectangle")
  {
    var r := "tool-rectangle";
    assert r[|r| - 7..] == "ectangle"[1..];
  }

  /** As written, no icon in the list carries the linked marker, whatever the names. */
  lemma ClassesAsWrittenNeverLinked(types: seq<string>, table: KindTable)
    ensures forall i :: 0 <= i < |ClassesAsWritten(types, table)| ==> !EndsLinked(ClassesAsWritten(types, table)[i])
  {
    var r := ClassesAsWritten(types, table);
    if |types| >= 2 && HasWord(Join(types), "layer") {
      var f := Filter(types, IsIconType);
      forall i | 0 <= i < |r|
        ensures !EndsLinked(r[i])
      {
        assert r[i] == IconFor(f[i], false, table);
        IconNotLinked(f[i], table);
      }
    } else {
      assert r == [] || r == ["tool-rectangle"];
      RectangleNotLinked();
    }
  }

  /** The example's joined names mention "layer". */
  lemma ExampleMentionsLayer()
    ensures HasWord(Join(LinkedTypes), "layer")
  {
    var j := Join(LinkedTypes);
    assert LinkedTypes[..2][..1] == ["smart object"];
    assert Join(LinkedTypes[..2]) == "smart object layer";
    assert LinkedTypes[..2] == LinkedTypes[..|LinkedTypes| - 1];
    assert j == "smart object layer linked";
    assert j[13..18] == "layer";
    assert WordAt(j, "layer", 13);
  }

  /** The example's icon names: all but "layer". */
  lemma ExampleFilter()
    ensures Filter(LinkedTypes, IsIconType) == ["smart object", "linked"]
  {
    assert LinkedTypes[1..] == ["layer", "linked"];
    assert LinkedTypes[1..][1..] == ["linked"];
  }

  /** The example gets one icon per name other than "layer", whatever the linked test. */
  lemma ExampleIcons(isLinked: bool)
    ensures Classes(LinkedTypes, isLinked, Table) == Icons(LinkedTypes, isLinked, Table)
  {
    ExampleMentionsLayer();
  }

  /** The example table's smart object kind is written "5". */
  lemma ExampleSmartObjectText()
    ensures KindText(Table, "SMARTOBJECT") == "5"
  {
    assert NatToString(5) == [Digit(5)];
  }

  /** With the evident test, a list led by a smart object and naming "linked" and "layer" starts with the linked icon. */
  lemma FirstIconLinked(types: seq<string>, table: KindTable)
    requires |types| >= 2 && types[0] == "smart object" && "linked" in types && HasWord(Join(types), "layer")
    ensures |ClassesFixed(types, table)| > 0
    ensures ClassesFixed(types, table)[0] == "layer-" + KindText(table, "SMARTOBJECT") + "-linked"
  {
    var r := Icons(types, true, table);
    assert ClassesFixed(types, table) == r;
    var f := Filter(types, IsIconType);
    assert types == [types[0]] + types[1..];
    FilterConcat([types[0]], types[1..], IsIconType);
    assert f[0] == "smart object";
  }

  /** With the evident test, the example's smart object shows the linked icon. */
  lemma ExampleFixed()
    ensures ClassesFixed(LinkedTypes, Table)[0] == "layer-5-linked"
  {
    assert LinkedTypes[2] == "linked";
    ExampleMentionsLayer();
    FirstIconLinked(LinkedTypes, Table);
    ExampleSmartObjectText();
    LinkedIconText();
  }

  /** The linked icon of kind 5, written out. */
  lemma LinkedIconText()
    ensures "layer-" + "5" + "-linked" == "layer-5-linked"
  {
    var t := "layer-" + "5" + "-linked";
    assert |t| == 14;
    forall i | 0 <= i < 14 ensures t[i] == "layer-5-linked"[i] {
    }
  }

  /** As written, the example's smart object shows the plain icon. */
  lemma ExampleAsWritten()
    ensures |ClassesAsWritten(LinkedTypes, Table)| == 2 && !EndsLinked(ClassesAsWritten(LinkedTypes, Table)[0])
  {
    ExampleMentionsLayer();
    ExampleFilter();
    ClassesAsWrittenNeverLinked(LinkedTypes, Table);
  }
}
