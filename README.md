# Layer structure, drag and drop, and export bookkeeping

This project models in Dafny the model and store layers of a layer-based
design application:

- **The layer structure.** An element structure is an immutable record. It holds a map from layer id to
  element and an ordered index of ids. The tree of groups is never stored:
  it is rebuilt from the flat index, where a group is bracketed by its
  group head and a GROUPEND marker (`SceneTree`, `SceneTreeFacts`). The
  structure answers position lookups (1-based), ancestor and descendant
  queries, selection normalisation and child bounds (`ElementStructure`,
  `AncestorSiblings`). It parses the host's child-count form by inserting
  group-end markers (`GroupEnds`). Its mutators return new records:
  selection, order, deletion, grouping (`StructureEdits`), adding and
  replacing layers (`LayerEdits`), and bounds, fill, stroke, effect and
  text-style merges (`PropertyEdits`).
- **Drag and drop.** The drag-and-drop store is a class. Its zone table of droppables is a
  map of sequences that the handlers reassign. Its hit test moves the first
  compatible droppable to the front (`DragAndDrop`). The layer panel's drop
  rules cover the hit test, the above/below decision, the nesting limit,
  self-containment, the background rule and the per-drag validity cache
  (`LayersPanel`).
- **Exports.** Export assets carry a status state machine and an id of format and scale
  (`ExportAssets`). A document's exports are upserted by scale
  (`ExportDocuments`). The export store validates updates and writes only
  what changes (`ExportStores`). The icon-class mappers of the SVG
  utilities are in `Svg`.

Modelling choices:

- The 3-D structure record declares only `elements`, `index` and
  `materials`. Most mutators were kept from the 2-D layer structure and
  read `this.layers` or merge their patches under `layers`, so as written
  they fail (see "Left out" and "Findings"). The model's mutators work on
  the `elements` map, as evidently intended; `RecordKeys` shows the two
  merges side by side.
- The 3-D element record declares only a name, a kind and the element
  kinds, and the raw-node parser hands nothing back (see "Findings"). The
  model's element carries the fields the structure's queries and mutators
  read and write: id, name, kind, the parent flag, selection, visibility,
  expansion, lock, the background, artboard and linked-smart-object flags,
  bounds, fills, strokes, layer effects, text style, proportional scaling
  and border radii.
- Immutable's `Map` built from a JavaScript `Map` is taken to iterate in insertion
  order.
- Status strings, error messages and constants are the source's own.
- The host's `emit("change")` is a ghost counter of notifications in both
  stores: the export store's `changes` and the drag store's `changes`. The
  drag store's `onDrop` callback is recorded in a ghost log.

## Model

| member | source | states |
|---|---|---|
| SceneTree.Level | src/js/models/scenetreenode.js:77-114 | one level of the scan only adds to the node map and, when it stops on a GROUPEND, resumes below its start |
| SceneTree.StepAt | src/js/models/scenetreenode.js:87-106 | the node made at a position carries that element's id (its `index`, read as the id), the level's parent and depth, is stored under its id, and the scan resumes below the position |
| SceneTree.Build | src/js/models/scenetreenode.js:115 | the top-level scan of a non-empty list starts at the last position |
| SceneTree.SceneTreeBuilder.constructor | src/js/models/scenetreenode.js:75-76 | the builder reads the given elements and starts with an empty node map |
| SceneTree.SceneTreeBuilder.MakeSceneTreeNodes | src/js/models/scenetreenode.js:77-114 | the while loop, with its recursive calls and the nodes.size skip, returns the level's roots and leaves the node map that Level describes |
| SceneTree.FromElements | src/js/models/scenetreenode.js:75-120 | the builder's roots and node map are those of Build |
| SceneTreeFacts.StepAtOpen | src/js/models/scenetreenode.js:90-103 | a GROUP or parent element first scans the level below, takes its roots as children, and skips as many positions as nodes were added |
| SceneTreeFacts.LevelPrefix | src/js/models/scenetreenode.js:86-113 | a level only appends to its roots, one per visited position, the first at its start position |
| SceneTreeFacts.LevelPrefixNext | src/js/models/scenetreenode.js:86-113 | past an element that is not a GROUPEND the level goes on, keeping that element's node first |
| SceneTreeFacts.LevelDescends | src/js/models/scenetreenode.js:86-87 | the positions a level visits strictly descend from its start |
| SceneTreeFacts.LevelDescendsNext | src/js/models/scenetreenode.js:86-87 | the descent continues past an element that is not a GROUPEND |
| SceneTreeFacts.LevelNodes | src/js/models/scenetreenode.js:90-103 | each root of a level carries the visited element's id, the level's parent and depth, and has no children exactly when the element opens no level |
| SceneTreeFacts.LevelStops | src/js/models/scenetreenode.js:105-110 | a level goes on past every element but a GROUPEND, and when it stops early its last node is a GROUPEND's |
| SceneTreeFacts.LevelLinked | src/js/models/scenetreenode.js:90-103 | every node a level makes names its children's parent as itself, one level up |
| SceneTreeFacts.StepLinked | src/js/models/scenetreenode.js:90-103 | the node made at one position is linked to its children |
| SceneTreeFacts.WrapLinked | src/js/models/scenetreenode.js:98-103 | a node whose children name it as parent one level deeper, and are linked, is linked |
| SceneTreeFacts.Seek | src/js/models/scenetreenode.js:105-110 | the position of the GROUPEND closing the current level, found scanning down, or -1 |
| SceneTreeFacts.SeekNested | src/js/models/scenetreenode.js:90-93 | with one more level open, the search finds the current level's end and continues below it |
| SceneTreeFacts.SeekNestedOpen | src/js/models/scenetreenode.js:90-93 | the same, at an element that opens a level |
| SceneTreeFacts.SeekStep | src/js/models/scenetreenode.js:91-93 | the level's end is the same whether sought from a position or from where the scan resumes after it |
| SceneTreeFacts.SeekPastLevel | src/js/models/scenetreenode.js:91-93 | one more level open means: find this level's end, then seek again below it |
| SceneTreeFacts.StepExact | src/js/models/scenetreenode.js:91-93 | with distinct ids, the nodes.size skip resumes exactly below the level's end and adds one node per visited position |
| SceneTreeFacts.StepExactOpen | src/js/models/scenetreenode.js:90-93 | the same, at an element that opens a level |
| SceneTreeFacts.OpenStepCounts | src/js/models/scenetreenode.js:91-93 | the skip after a level below counts exactly the nodes that level added |
| SceneTreeFacts.OpenStepKeeps | src/js/models/scenetreenode.js:98-105 | the node map after a level below keeps the old entries and holds exactly the visited elements' ids |
| SceneTreeFacts.LevelExact | src/js/models/scenetreenode.js:86-113 | with distinct ids a level ends just below its closing GROUPEND (or at -1) and adds one node per position it covers |
| SceneTreeFacts.LevelExactNext | src/js/models/scenetreenode.js:86-113 | the same, continued past an element that is not a GROUPEND |
| SceneTreeFacts.SeekNone | src/js/models/scenetreenode.js:105-110 | when no run of positions closes more levels than are open, no GROUPEND ends the level |
| SceneTreeFacts.BuildComplete | src/js/models/scenetreenode.js:115-119 | for a well-bracketed list with distinct ids every position is visited and the node map has one entry per element |
| SceneTreeFacts.BuildRoots | src/js/models/scenetreenode.js:115 | every root of the top-level call has no parent, depth 0, and is linked to its children |
| SceneTreeFacts.LevelKeysFrom | src/js/models/scenetreenode.js:105 | every key a level adds is the id of an element at or below its start |
| SceneTreeFacts.StepKeysFrom | src/js/models/scenetreenode.js:105 | the same for the step at one position |
| SceneTreeFacts.LevelFresh | src/js/models/scenetreenode.js:105 | an element above the scanned range gets no entry from a level |
| SceneTreeFacts.StepDepths | src/js/models/scenetreenode.js:98-103 | every entry the step adds has a non-negative depth and a parent exactly one level up |
| SceneTreeFacts.StepDepthsOpen | src/js/models/scenetreenode.js:90-103 | the same at an element that opens a level |
| SceneTreeFacts.OpenLevelDepths | src/js/models/scenetreenode.js:92 | the level below an opening element has sound depths, with that element pending one level up |
| SceneTreeFacts.LevelDepths | src/js/models/scenetreenode.js:86-113 | a level keeps every parent link in the node map sound |
| SceneTreeFacts.BuildConsistent | src/js/models/scenetreenode.js:75-120 | with distinct ids every node's parent is in the map exactly one level up, and roots have depth 0 |
| SceneTreeFacts.StepStored | src/js/models/scenetreenode.js:98-106 | the step keeps every stored node and stores its new node with children that are themselves stored |
| SceneTreeFacts.LevelStored | src/js/models/scenetreenode.js:86-113 | a level's roots and all their children are entries of the node map |
| SceneTreeFacts.BuildStored | src/js/models/scenetreenode.js:115-119 | every root and every child of the finished scan is an entry of the node map, keyed by its id |
| GroupEnds.InsertionIndexFrom | src/js/models/elementstructure.js:123-132 | the offset found lies past the start, and is found only while fewer than `count` entries have been counted |
| GroupEnds.InsertionIndex | src/js/models/elementstructure.js:119-133 | an offset is found only for a positive count, and it skips at least `count` entries |
| GroupEnds.GetInsertionIndex | src/js/models/elementstructure.js:119-133 | the counting loop returns the offset the step function describes, nothing when the list runs out; a found offset is past at least `count` entries |
| GroupEnds.InsertAt | src/js/models/elementstructure.js:150 | splicing one value in at a position (the end when past it) grows the list by one, puts the value there and shifts the rest up |
| GroupEnds.QualifyingConcat | src/js/models/elementstructure.js:139 | the nodes that get a marker in a concatenation are those of each part |
| GroupEnds.MarkerKeepsCount | src/js/models/elementstructure.js:150 | a marker spliced in after position i changes no count of qualifying nodes after i |
| GroupEnds.EndStep | src/js/models/elementstructure.js:137-151 | a node that is not a parent with children leaves the list as it is; a qualifying one gets a marker at the found offset after it, or fails when none is found; the list grows by one per marker |
| GroupEnds.InsertEndsFrom | src/js/models/elementstructure.js:135-154 | the marker loop as written from a position on; a list with no parent with children from that position on comes back unchanged |
| GroupEnds.InsertEndsShape | src/js/models/elementstructure.js:136-152 | the loop from position i on keeps the positions before i and adds one entry per qualifying node from i on |
| GroupEnds.InsertGroupEnds | src/js/models/elementstructure.js:135-154 | the for loop returns what InsertEndsFrom describes, and a successful run adds exactly one marker per qualifying node |
| GroupEnds.PairStepBounds | src/js/models/elementstructure.js:140-150 | after one splice every recorded group still points at a qualifying node before its marker |
| GroupEnds.PairStepDistinct | src/js/models/elementstructure.js:140-150 | after one splice distinct groups still have distinct markers |
| GroupEnds.PairStep | src/js/models/elementstructure.js:136-151 | one iteration at a qualifying node extends the pairing of groups with markers |
| GroupEnds.PairStepCovers | src/js/models/elementstructure.js:136-151 | after one iteration every qualifying node so far has a recorded marker |
| GroupEnds.PairSkip | src/js/models/elementstructure.js:136-151 | an iteration at a node that gets no marker keeps the pairing |
| GroupEnds.InsertEndsPairedFrom | src/js/models/elementstructure.js:136-152 | the loop from position i on ends with every qualifying node paired with its own marker, placed strictly after it |
| GroupEnds.InsertEndsPaired | src/js/models/elementstructure.js:135-154 | a successful run pairs every qualifying node with a distinct marker strictly after it |
| GroupEnds.SubtreeEnds | src/js/models/elementstructure.js:119-154 | the subtree at a position, with its markers, ends after that position and within the list |
| GroupEnds.ForestEnds | src/js/models/elementstructure.js:119-154 | the next `count` sibling subtrees end within the list |
| GroupEnds.Unmarked | src/js/models/elementstructure.js:141-149 | removing the markers leaves no marker |
| GroupEnds.SubtreeUnmarked | src/js/models/elementstructure.js:135-154 | a subtree with its markers removed is the raw span it came from |
| GroupEnds.ForestUnmarked | src/js/models/elementstructure.js:135-154 | the same for a run of sibling subtrees |
| GroupEnds.SubtreeLength | src/js/models/elementstructure.js:139-150 | a subtree grows by one marker per qualifying node in its span |
| GroupEnds.ForestLength | src/js/models/elementstructure.js:139-150 | the same for a run of sibling subtrees |
| GroupEnds.SubtreeNested | src/js/models/elementstructure.js:139-150 | a subtree's markers are well nested, and a qualifying root's level stays open until its own marker |
| GroupEnds.LeafNested | src/js/models/elementstructure.js:139 | a node without children is well nested on its own |
| GroupEnds.WrapNested | src/js/models/elementstructure.js:139-150 | a node with well-nested children, followed by its marker when it is a parent, is well nested and its level stays open until its marker |
| GroupEnds.ForestNested | src/js/models/elementstructure.js:139-150 | a run of sibling subtrees is well nested |
| GroupEnds.NestedEndsFromSound | src/js/models/elementstructure.js:135-154 | the corrected placement from a position adds one marker per qualifying node, and for a raw list without markers removing them gives back the list and leaves it well nested |
| GroupEnds.NestedEndsSound | src/js/models/elementstructure.js:135-154 | the corrected placement adds one marker per qualifying node, removing the markers gives back the raw list, and every group's marker closes its own level |
| GroupEnds.ThreeLevelsAsWritten | src/js/models/elementstructure.js:119-133 | as written, three nested groups over a leaf get all three markers before the leaf |
| GroupEnds.ThreeLevelsClosedEarly | src/js/models/elementstructure.js:119-133 | in that output every level is closed before the leaf, which therefore lands outside all three groups |
| GroupEnds.ThreeLevelsCorrected | src/js/models/elementstructure.js:135-154 | the corrected placement puts the three markers after the leaf |
| GroupEnds.FromRawElementAsWritten | src/js/models/element.js:97-115 | as written the record carries neither the raw node's name nor its type |
| GroupEnds.RawElementsCollapse | src/js/models/element.js:97-115 | as written any two raw nodes give the same record, while the corrected element keeps different names apart |
| GroupEnds.FromRawElement | src/js/models/elementstructure.js:176 | an element built from a raw node at position i has id i, the node's name, parent flag and expansion, and is a GROUPEND exactly for a non-parent node of type 13 |
| GroupEnds.Descending | src/js/models/elementstructure.js:181 | the positions n-1 down to 0 |
| GroupEnds.ElementsOf | src/js/models/elementstructure.js:172-180 | one element per position 0 .. n-1, each built from the raw node at that position |
| GroupEnds.Positions | src/js/models/elementstructure.js:174-179 | exactly the positions 0 .. n-1 |
| GroupEnds.FromLayerDescriptor | src/js/models/elementstructure.js:162-188 | without a 3-D layer the structure is empty; otherwise it is valid, indexes every element, and has one entry per raw node plus one per marker |
| GroupEnds.FromLayerDescriptorAsWritten | src/js/models/elementstructure.js:162-188 | as written: empty without a 3-D layer; fails exactly when the marker loop does; otherwise one default record per position 0 .. n-1, n being the raw nodes plus one marker per parent with children, and the index lists n-1 down to 0 |
| GroupEnds.ThreeLevelsDescriptorAsWritten | src/js/models/elementstructure.js:162-188 | as written the three nested groups over a leaf give seven entries indexed 6 down to 0, the leaf being the default record at position 6 |
| GroupEnds.ThreeLevelsDescriptorCorrected | src/js/models/elementstructure.js:162-188 | corrected, the leaf keeps its name at position 3, before the markers |
| AncestorSiblings.Pull | src/js/models/elementstructure.js:208-212 | the list keeps exactly the elements that are not the given parent |
| AncestorSiblings.Climb | src/js/models/elementstructure.js:200-229 | the climb only adds to the visited ids; an unvisited ancestor is recorded; without an ancestor, or at one already visited, the list and the ids are left as they are |
| AncestorSiblings.ReplaceAncestorWithSiblingsOf | src/js/models/elementstructure.js:200-230 | the loop over the ancestors ends with the list and visited ids of the climb from the element's parent; an element at root changes nothing |
| AncestorSiblings.AncestorIds | src/js/models/elementstructure.js:214-228 | the ids the loop can visit are exactly those of the element's strict ancestors |
| AncestorSiblings.ClimbVisits | src/js/models/elementstructure.js:214-228 | the loop records only strict ancestors' ids, keeps the ids visited before, and records every strict ancestor when none was visited before |
| AncestorSiblings.NotOwnAncestor | src/js/models/elementstructure.js:214-228 | an element is never among its own strict ancestors, so the loop cannot revisit the ancestor it starts from |
| AncestorSiblings.AncestorIdsStep | src/js/models/elementstructure.js:228 | an element's strict ancestors are its parent's plus the parent itself |
| AncestorSiblings.ChildDepth | src/js/models/elementstructure.js:222 | a child added to the list sits exactly one level below the ancestor it replaces |
| AncestorSiblings.ClimbAbove | src/js/models/elementstructure.js:214-228 | every ancestor the loop records is a known element lying above the starting element |
| AncestorSiblings.ClimbKeeps | src/js/models/elementstructure.js:216 | an element of the incoming list stays in the result unless the loop pulled it as an ancestor |
| AncestorSiblings.ClimbAddsSiblings | src/js/models/elementstructure.js:222 | every child of every ancestor the loop records is in the resulting list |
| ElementModel.Merge | src/js/models/elementstructure.js:1300-1318 | a shallow merge keeps every key of both bags, the patch's value winning on a shared key |
| ElementModel.Bounds.UpdatePosition | src/js/models/elementstructure.js:1099-1110 | moving a rectangle puts its top-left corner at the point and keeps its width and height |
| ElementModel.Bounds.UpdateSizeAndPosition | src/js/models/elementstructure.js:1059-1072 | resizing puts the top-left corner at the point and gives the requested width and height |
| ElementStructure.ByID | src/js/models/elementstructure.js:530-532 | the stored element for a known id, None (null) for an unknown one |
| ElementStructure.All | src/js/models/elementstructure.js:286-288 | one element per index entry, in index order, the entry's own element |
| ElementStructure.AllWellFormed | src/js/models/elementstructure.js:245-256 | the index-ordered list handed to the scan has distinct ids and no GROUPEND flagged as a parent |
| ElementStructure.NodesConsistent | src/js/models/elementstructure.js:245-247 | every parent link of the node map names a node one level up |
| ElementStructure.NodesStored | src/js/models/elementstructure.js:245-256 | every child node and every root is the map's own entry for its id |
| ElementStructure.NodesIndexed | src/js/models/elementstructure.js:245-247 | every node belongs to an element listed in the index |
| ElementStructure.RootsTop | src/js/models/elementstructure.js:254-256 | the roots have no parent and depth 0 |
| ElementStructure.AllVisible | src/js/models/elementstructure.js:294-299 | exactly the listed elements that are not GROUPEND markers |
| ElementStructure.Count | src/js/models/elementstructure.js:313-315 | at most the index length, and equal to it exactly when no index entry is a GROUPEND |
| ElementStructure.Selected | src/js/models/elementstructure.js:364-368 | exactly the listed elements that are selected |
| ElementStructure.ListGet | src/js/models/elementstructure.js:541 | List.get: a position in range gives that entry, a negative one counts from the end, any other gives None |
| ElementStructure.ByIndex | src/js/models/elementstructure.js:540-547 | position p from 1 to the index length gives the element of the p-th entry; 0 and negative positions count back from the end (0 is the last entry); positions past either end give None |
| ElementStructure.LastPosition | src/js/models/elementstructure.js:274-280 | the reverse index records an id exactly when the index holds it, at its last 1-based position |
| ElementStructure.IndexOf | src/js/models/elementstructure.js:555-557 | a position exactly for an indexed id, and the index holds that id at that 1-based position |
| ElementStructure.IndexRoundTrip | src/js/models/elementstructure.js:540-557 | byIndex(indexOf(e)) gives back e for every indexed element |
| ElementStructure.PositionOfIndexed | src/js/models/elementstructure.js:274-280 | the element at 0-based index entry i has position i + 1 |
| ElementStructure.Parent | src/js/models/elementstructure.js:565-573 | a parent exactly when the element's node records one; that parent is a stored element one level up, and an element without one is at depth 0 |
| ElementStructure.Depth | src/js/models/elementstructure.js:581-589 | the node's depth, never negative, exactly for elements the scan reached |
| ElementStructure.ChildrenKnown | src/js/models/elementstructure.js:607-617 | every child node of an element is a stored node of a stored element |
| ElementStructure.Children | src/js/models/elementstructure.js:607-617 | one stored element per child node, in the node's order; none when the node has no child list or the element is unknown |
| ElementStructure.RootIds | src/js/models/elementstructure.js:321-331 | the roots' ids, in order, each a parentless node of a stored element |
| ElementStructure.Top | src/js/models/elementstructure.js:321-331 | exactly the root elements that are not GROUPEND markers |
| ElementStructure.Siblings | src/js/models/elementstructure.js:625-633 | the parent's children, or the top elements when there is no parent |
| ElementStructure.StrictAncestors | src/js/models/elementstructure.js:653-661 | one ancestor per level above the element: as many as its depth, none for an unreached element |
| ElementStructure.Ancestors | src/js/models/elementstructure.js:641-644 | the strict ancestors followed by the element itself |
| ElementStructure.AncestorChain | src/js/models/elementstructure.js:641-661 | the i-th strict ancestor is a stored element at depth i, the first is a root, and the last is the element's parent |
| ElementStructure.AncestorsStep | src/js/models/elementstructure.js:641-661 | the ancestors are the parent's ancestors plus the element, or the element alone for a root |
| ElementStructure.SelectedAncestorSearch | src/js/models/elementstructure.js:755-774 | the recursive selected-ancestor tests agree with a search of the (strict) ancestor list |
| ElementStructure.HasSelectedAncestor | src/js/models/elementstructure.js:772-774 | a selected element has a selected ancestor; a root has one exactly when it is selected itself |
| ElementStructure.HasStrictSelectedAncestor | src/js/models/elementstructure.js:755-766 | a root has no selected strict ancestor; an element whose parent is selected has one |
| ElementStructure.HasLockedAncestor | src/js/models/elementstructure.js:731-735 | a locked element has a locked ancestor; a root has one exactly when it is locked itself |
| ElementStructure.HasInvisibleAncestor | src/js/models/elementstructure.js:782-786 | a hidden element has a hidden ancestor; a root has one exactly when it is hidden itself |
| ElementStructure.HasCollapsedAncestor | src/js/models/elementstructure.js:682-686 | a root never has a collapsed ancestor; an element whose parent is collapsed has one |
| ElementStructure.LockedAncestorStep | src/js/models/elementstructure.js:731-735 | a locked ancestor exists exactly when the element is locked or its parent has one |
| ElementStructure.InvisibleAncestorStep | src/js/models/elementstructure.js:782-786 | a hidden ancestor exists exactly when the element is hidden or its parent has one |
| ElementStructure.CollapsedAncestorStep | src/js/models/elementstructure.js:682-686 | a collapsed strict ancestor exists exactly when the parent is collapsed or has one |
| ElementStructure.AncestorTestsStep | src/js/models/elementstructure.js:682-786 | the three ancestor tests, each unfolded by one level |
| ElementStructure.SelectedNormalized | src/js/models/elementstructure.js:478-487 | no longer than the selection |
| ElementStructure.AncestorsInAll | src/js/models/elementstructure.js:653-661 | every strict ancestor is a listed element |
| ElementStructure.SelectedNormalizedSpec | src/js/models/elementstructure.js:478-487 | an element is kept exactly when it is selected and no strict ancestor is selected |
| ElementStructure.StrictDescendants | src/js/models/elementstructure.js:705-712 | stored elements only; none for an unreached element |
| ElementStructure.StrictDescendantsDeeper | src/js/models/elementstructure.js:705-712 | every strict descendant lies deeper than the element |
| ElementStructure.Descendants | src/js/models/elementstructure.js:694-697 | the strict descendants followed by the element itself |
| ElementStructure.DescendantsOfEachMember | src/js/models/elementstructure.js:705-712 | an element is in the flattened descendants of a list exactly when it descends from one entry |
| ElementStructure.DescendantsOfEach | src/js/models/elementstructure.js:705-712 | the flattened descendants of a list are empty exactly when the list is empty |
| ElementStructure.StrictDescendantsOfChildren | src/js/models/elementstructure.js:705-712 | the strict descendants are the descendants of the children, last child first, flattened |
| ElementStructure.MaxDescendantDepth | src/js/models/elementstructure.js:597-599 | the depth of some descendant, no smaller than any descendant's depth; None for an unreached element |
| ElementStructure.MaxDescendantDepthBounds | src/js/models/elementstructure.js:597-599 | never above the element, and the element's own depth when it has no children |
| ElementStructure.IsEmptyGroup | src/js/models/elementstructure.js:810-817 | only a GROUP with at least one child can be empty |
| ElementStructure.EmptyGroupWitness | src/js/models/elementstructure.js:810-817 | a GROUP whose children are adjustment layers and empty groups, but for one other child (its GROUPEND), is empty |
| ElementStructure.Union | src/js/models/elementstructure.js:837 | the union of rectangles is None for none and otherwise encloses every one of them, each of its four edges being the edge of one of them (the smallest enclosing rectangle) |
| ElementStructure.ChildBounds | src/js/models/elementstructure.js:826-845 | None for a GROUPEND, the own bounds of an artboard or a non-group, and for another group the union of its children's non-empty child bounds (None when there are none) |
| ElementStructure.NonEmptyChildBounds | src/js/models/elementstructure.js:832-836 | only rectangles of positive area, at most one per child |
| ElementStructure.ChildBoundsEnclose | src/js/models/elementstructure.js:832-836 | a child's non-empty child bounds are among those the group collects |
| ElementStructure.GroupBoundsEncloseChildren | src/js/models/elementstructure.js:826-845 | a group's child bounds enclose every child's non-empty child bounds |
| ElementStructure.AllSelected | src/js/models/elementstructure.js:435-437 | without repeats, exactly the descendants of selected elements |
| ElementStructure.SelectedLocked | src/js/models/elementstructure.js:498-503 | true exactly when nothing is selected or some selected element is locked or the background |
| ElementStructure.SelectedLayersDeletable | src/js/models/elementstructure.js:511-521 | true exactly when something is selected and some listed element outside the selection's subtrees is neither a GROUP nor a GROUPEND |
| StructureEdits.IndexFitsMap | src/js/models/elementstructure.js:1184-1190 | a valid structure's index is no longer than its map, so reordering by its own ids never hits the too-many-layers error |
| StructureEdits.RemoveKeys | src/js/models/elementstructure.js:1193-1197 | deleting listed ids keeps exactly the other keys, with their values |
| StructureEdits.UpdateSelection | src/js/models/elementstructure.js:1169-1176 | the index and the keys stay; each element is selected exactly when its id is in the set, and nothing else about it changes |
| StructureEdits.UpdateSelectionIdempotent | src/js/models/elementstructure.js:1169-1176 | applying the same selection twice is applying it once |
| StructureEdits.UpdateSelectionSelected | src/js/models/elementstructure.js:1169-1176 | the result is valid, and its selected elements are exactly the indexed ones whose ids are in the set |
| StructureEdits.UpdateOrder | src/js/models/elementstructure.js:1184-1206 | more ids than stored elements is an error; otherwise the index becomes the ids reversed, and only when the list is shorter than the old index are the old indexed ids missing from it deleted from the map |
| StructureEdits.UpdateOrderOwnOrder | src/js/models/elementstructure.js:1184-1206 | reordering by the current order, top down, gives back the same structure |
| StructureEdits.UpdateOrderValid | src/js/models/elementstructure.js:1184-1206 | a reorder by distinct stored ids succeeds and keeps the structure valid |
| StructureEdits.DeleteLayers | src/js/models/elementstructure.js:1214-1227 | on a valid structure it succeeds; the index loses the given ids and keeps its order, and the map loses exactly the given ids |
| StructureEdits.DeleteLayersValid | src/js/models/elementstructure.js:1214-1227 | the result is valid, and deleting distinct indexed ids shortens the index by their number |
| StructureEdits.LayersToMove | src/js/models/elementstructure.js:1244 | without repeats, indexed elements only |
| StructureEdits.LayersToMoveSpec | src/js/models/elementstructure.js:1244 | exactly the descendants of the normalised selection |
| StructureEdits.MoveIdsIndexed | src/js/models/elementstructure.js:1245-1246 | the moved ids are distinct and indexed |
| StructureEdits.SliceBound | src/js/models/elementstructure.js:1253-1255 | a slice bound within the list is itself, one past it is the length, NaN is 0 |
| StructureEdits.GroupHeadIndex | src/js/models/elementstructure.js:1247 | a number exactly when something moves |
| StructureEdits.GroupHeadElement | src/js/models/elementstructure.js:1242 | the new head is a GROUP with the given id and name, not flagged as a parent |
| StructureEdits.GroupEndElement | src/js/models/elementstructure.js:1243 | the new end marker is a GROUPEND with the given id, not flagged as a parent |
| StructureEdits.NewOrderReversed | src/js/models/elementstructure.js:1248-1255 | read bottom up, the new order is the staying ids with the end marker, the moved ids and the head spliced in as one run |
| StructureEdits.WithGroup | src/js/models/elementstructure.js:1256-1262 | the index stays and the map gains exactly the two new ids |
| StructureEdits.GroupedSelection | src/js/models/elementstructure.js:1265-1266 | after the selection update only the head is selected, and every old element is as before but unselected |
| StructureEdits.GroupedSize | src/js/models/elementstructure.js:1256-1262 | with two fresh ids the map grows by two |
| StructureEdits.GroupedOrderSize | src/js/models/elementstructure.js:1248-1255 | the new order is two longer than the index |
| StructureEdits.UpdateOrderKeepsAll | src/js/models/elementstructure.js:1184-1206 | an order at least as long as the index deletes nothing |
| StructureEdits.CreateGroupReorders | src/js/models/elementstructure.js:1264-1267 | createGroup is the selection update followed by a reorder by the new order |
| StructureEdits.CreateGroup | src/js/models/elementstructure.js:1241-1270 | in the new index the end marker, the moved layers and the head form one run, end first, inside the staying ids kept in order; only the head is selected; every other element is unchanged but unselected |
| StructureEdits.CreateGroupOk | src/js/models/elementstructure.js:1241-1270 | with two fresh distinct ids grouping succeeds and the map gains exactly those ids |
| StructureEdits.GroupIndexNoDup | src/js/models/elementstructure.js:1248-1255 | with fresh ids the new index has no repeats |
| StructureEdits.GroupIndexMembers | src/js/models/elementstructure.js:1248-1255 | the new index names only old indexed ids and the two new ones |
| StructureEdits.CreateGroupShape | src/js/models/elementstructure.js:1241-1270 | with fresh ids the result has the grouped index, the two new elements and the old ones unselected |
| StructureEdits.CreateGroupValid | src/js/models/elementstructure.js:1241-1270 | with fresh distinct ids grouping succeeds and the result is valid |
| LayerEdits.ResolveBegin | src/js/models/elementstructure.js:901 | List.splice's start: a position inside the list is itself, a negative one counts from the end, and the result is clamped to the list |
| LayerEdits.Splice | src/js/models/elementstructure.js:893-901 | List.splice keeps the entries before the start, puts the values there, and keeps the entries after the removed ones |
| LayerEdits.ListDelete | src/js/models/elementstructure.js:895 | List.delete removes the entry at a position inside the list (negative from the end) and leaves the list alone otherwise |
| LayerEdits.ListSetInside | src/js/models/elementstructure.js:968 | List.set inside the list writes that one slot and keeps the others |
| LayerEdits.InsertNoDup | src/js/models/elementstructure.js:901 | splicing a fresh id into distinct ids keeps them distinct and adds exactly that id |
| LayerEdits.LastForLast | src/js/models/elementstructure.js:930-937 | the entry that decides a layer is the last one naming it |
| LayerEdits.SetEach | src/js/models/elementstructure.js:929-944 | the keys stay; a layer named by some entry is set from its last entry and the old layer, every other layer is kept |
| LayerEdits.SetEachBatched | src/js/models/elementstructure.js:929-944 | the fold leaves every named layer set from its last entry and every other layer unchanged |
| LayerEdits.LastEntry | src/js/models/elementstructure.js:930-937 | every entry for an id has a last one at or after it |
| LayerEdits.BatchedSame | src/js/models/elementstructure.js:1081-1091 | a batch whose entries all carry the same data sets every named layer from it and keeps the rest |
| LayerEdits.BatchedSameIds | src/js/models/elementstructure.js:1081-1091 | one entry per listed id with the same data: every listed layer is set from it, every other is kept |
| LayerEdits.ApplyEach | src/js/models/elementstructure.js:930-937 | the loop over the entries, setting each layer in a copy of the map, ends with the batch the fold describes |
| LayerEdits.PatchEach | src/js/models/elementstructure.js:1022-1032 | the keys stay, every listed stored layer gets the change, every other is kept |
| LayerEdits.PatchEachValid | src/js/models/elementstructure.js:1022-1032 | a change that keeps ids, kinds and parent flags keeps the structure valid |
| LayerEdits.SetEachValid | src/js/models/elementstructure.js:929-944 | the same for a batch with per-layer data |
| LayerEdits.ReplaceCandidate | src/js/models/elementstructure.js:865-872 | an integer argument names the layer of that id (None when absent); otherwise the one selected layer, if exactly one is selected |
| LayerEdits.ReplaceTarget | src/js/models/elementstructure.js:865-878 | replacement fails for several new layers with a truthy argument; a target exists only for a lone new layer and is the candidate, and without an explicit truthy argument it is an empty non-background pixel layer |
| LayerEdits.ReplaceIndex | src/js/models/elementstructure.js:890 | the replaced layer's 0-based index position, -1 when it is not indexed |
| LayerEdits.ReplaceInto | src/js/models/elementstructure.js:889-899 | the target leaves the map; the new id takes the target's slot when the descriptor names it, is moved there from the target's slot when the position is inside the list, and the step fails otherwise |
| LayerEdits.NewLayer | src/js/models/elementstructure.js:885-886 | the built layer is the descriptor's layer, selected exactly when the batch selects and it is the last new one |
| LayerEdits.AddStep | src/js/models/elementstructure.js:880-910 | one reduce step stores the new layer and keeps every other stored layer; without a target it succeeds and inserts the id at the descriptor's position |
| LayerEdits.AddFrom | src/js/models/elementstructure.js:880-915 | running out of descriptors fails; a successful run stores every new id, and keeps the other stored layers |
| LayerEdits.AddLayers | src/js/models/elementstructure.js:859-920 | fails on several new layers with a truthy replacement and on missing descriptors; a successful add stores every new id and only new or old ids |
| LayerEdits.AddOneLayer | src/js/models/elementstructure.js:859-920 | a lone layer added without replacement is inserted at its descriptor's position with the other ids in order, and stored with the batch's selection |
| LayerEdits.AddOneLayerByIndex | src/js/models/elementstructure.js:859-920 | after a lone add at a position inside the grown index, byIndex at that position finds the new layer |
| LayerEdits.ReplaceInPlace | src/js/models/elementstructure.js:889-894 | a replacing layer whose descriptor names the replaced layer's own slot takes over that slot alone, and the replaced layer leaves the map |
| LayerEdits.AddStepReplacing | src/js/models/elementstructure.js:880-910 | a replacing step that finds its slot stores the new layer in what the replacement left |
| LayerEdits.SpliceOne | src/js/models/elementstructure.js:893 | splicing one id over one slot overwrites that slot |
| LayerEdits.ReplaceLayerTarget | src/js/models/elementstructure.js:866-868 | an explicit nonzero stored id is the replacement target |
| LayerEdits.AddLayersOne | src/js/models/elementstructure.js:859-920 | a lone add is one reduce step on the structure with the selection cleared or kept |
| LayerEdits.AddFromSelects | src/js/models/elementstructure.js:884-886 | when the batch selects, only the last new layer ends up selected |
| LayerEdits.AddLayersSelects | src/js/models/elementstructure.js:859-920 | adding selected layers leaves exactly the last new layer selected |
| LayerEdits.AddStepValid | src/js/models/elementstructure.js:900-907 | inserting one fresh layer keeps the structure valid |
| LayerEdits.AddFromValid | src/js/models/elementstructure.js:880-915 | inserting fresh distinct layers one by one succeeds and keeps the structure valid |
| LayerEdits.AddLayersValid | src/js/models/elementstructure.js:859-920 | adding fresh distinct layers without replacement succeeds and keeps the structure valid |
| LayerEdits.AddLayersPlain | src/js/models/elementstructure.js:859-920 | without replacement the add is the reduce over the new ids from the structure with the selection cleared or kept |
| LayerEdits.ReplaceOutOfBounds | src/js/models/elementstructure.js:895-898 | a replacement whose position is past the index and not the replaced slot fails with the source's message |
| LayerEdits.ByIndexInside | src/js/models/elementstructure.js:540-547 | a position byIndex resolves lies inside the index, negative ones counting from the end |
| LayerEdits.ReplaceByIndexFrom | src/js/models/elementstructure.js:957-970 | the index keeps its length, and the run fails exactly when some remaining descriptor's position holds no layer |
| LayerEdits.ReplaceLayersByIndex | src/js/models/elementstructure.js:954-976 | the forEach, updating the index and the map in place, ends where the fold does |
| LayerEdits.ReplaceByIndexStep | src/js/models/elementstructure.js:958-969 | one turn fails on a position with no layer and otherwise swaps that layer for the new one, which keeps the old selection flag |
| LayerEdits.ReplaceOneByIndex | src/js/models/elementstructure.js:954-976 | one descriptor for an occupied position changes the index only there, stores the new layer with the old one's selection, and drops the old layer from the map |
| LayerEdits.ResetLayers | src/js/models/elementstructure.js:929-944 | fails on an id the map lacks; otherwise the index stays and every listed layer is reset from its last entry |
| LayerEdits.ResetLayersValid | src/js/models/elementstructure.js:929-944 | a reset that keeps ids, kinds and parent flags succeeds and keeps the structure valid |
| PropertyEdits.FirstError | src/js/models/elementstructure.js:1301-1312 | no error exactly when every id passes; otherwise the error of the first id that fails |
| PropertyEdits.ResizeOne | src/js/models/elementstructure.js:1061-1066 | a layer without bounds is left alone; one with bounds gets the given corner and size and keeps every other field |
| PropertyEdits.RepositionOne | src/js/models/elementstructure.js:1101-1104 | a layer without bounds is left alone; one with bounds gets the given corner and keeps its size and every other field |
| PropertyEdits.ResizeLayers | src/js/models/elementstructure.js:1059-1072 | fails on an id the map lacks; otherwise the index stays and each listed layer is resized by its last entry, the others kept |
| PropertyEdits.RepositionLayers | src/js/models/elementstructure.js:1099-1110 | fails on an id the map lacks; otherwise the index stays and each listed layer is moved by its last entry, the others kept |
| PropertyEdits.ResetBounds | src/js/models/elementstructure.js:984-1013 | fails on an id the map lacks; otherwise the index stays and each listed layer with bounds has them rebuilt from its last entry, the others kept |
| PropertyEdits.SizeOne | src/js/models/elementstructure.js:1127-1129 | a layer without bounds is left alone; otherwise its bounds have the given corner and size |
| PropertyEdits.UpdateBoundsAsWritten | src/js/models/elementstructure.js:1123-1136 | fails on an id the map lacks; otherwise every listed layer gets the size with `top` passed as the corner's x and `left` as its y, the others kept |
| PropertyEdits.UpdateBounds | src/js/models/elementstructure.js:1123-1136 | the corrected edit: every listed layer with bounds gets its top edge at `top`, its left edge at `left` and the given size |
| PropertyEdits.UpdateBoundsSwapsCorner | src/js/models/elementstructure.js:1128 | asked for top 10 and left 20, the written edit puts the top at 20 and the left at 10; the corrected one puts them where asked |
| PropertyEdits.TranslateOne | src/js/models/elementstructure.js:1150-1153 | a layer with bounds is moved by the offset and keeps its size; one without is left alone |
| PropertyEdits.TranslateLayers | src/js/models/elementstructure.js:1147-1160 | fails on an id the map lacks; otherwise every listed layer is moved by the offset, the others kept |
| PropertyEdits.TranslateInverse | src/js/models/elementstructure.js:1147-1160 | moving by an offset and back by its opposite restores the structure |
| PropertyEdits.TranslateBack | src/js/models/elementstructure.js:1150-1153 | moving one layer by an offset and back restores it |
| PropertyEdits.TranslateValid | src/js/models/elementstructure.js:1147-1160 | moving layers keeps the structure valid |
| PropertyEdits.SetLayersProportional | src/js/models/elementstructure.js:1081-1091 | the index and keys stay; every listed layer's proportional-scaling flag is the given one, the others kept |
| PropertyEdits.SetLayersProportionalIdempotent | src/js/models/elementstructure.js:1081-1091 | setting the flag twice is setting it once |
| PropertyEdits.SetBorderRadiiAsWritten | src/js/models/elementstructure.js:1279-1290 | as written every call fails: the radii constructor is not among the file's imports |
| PropertyEdits.SetBorderRadii | src/js/models/elementstructure.js:1279-1290 | the corrected edit: the index and keys stay, every listed layer carries the radii, the others are kept |
| PropertyEdits.SetBorderRadiiFixed | src/js/models/elementstructure.js:1279-1290 | the written edit fails where the corrected one gives every listed stored layer the radii, and applying it twice is applying it once |
| PropertyEdits.ApplyProps | src/js/models/elementstructure.js:1022-1032 | each field the patch gives is set, every other field kept |
| PropertyEdits.SetProperties | src/js/models/elementstructure.js:1022-1032 | the index and keys stay; every listed layer gets the patch, the others are kept |
| RecordKeys.MergeDeepUnder | src/js/models/elementstructure.js:44-65 | a deep merge of per-layer patches succeeds exactly under the declared key `elements`, patching the listed layers and keeping the index, the keys and every other layer; under `layers` it fails with the record's unknown-key error |
| RecordKeys.SetLayersProportionalAsWritten | src/js/models/elementstructure.js:1081-1091 | as written every call fails with the unknown-key error, whatever the structure and ids |
| RecordKeys.ElementsKeyIsIntended | src/js/models/elementstructure.js:1022-1091 | the proportional flag, radii and basic-property patches merged under `elements` give exactly the model's SetLayersProportional, SetBorderRadii and SetProperties |
| PropertyEdits.SetPropertiesIdempotentValid | src/js/models/elementstructure.js:1022-1032 | applying a patch twice is applying it once, and it keeps a structure valid |
| PropertyEdits.ApplyPropsTwice | src/js/models/elementstructure.js:1022-1032 | a patch applied to a layer twice is applied once |
| PropertyEdits.WithPaints | src/js/models/elementstructure.js:1310 | the layer with its fills or strokes replaced by the list, nothing else changed |
| PropertyEdits.PaintError | src/js/models/elementstructure.js:1302-1307 | no error exactly when the layer is stored, has the list, and holds a paint at the index |
| PropertyEdits.SetPaintProperties | src/js/models/elementstructure.js:1300-1318 | fails exactly when some listed layer has no paint at the index, with the first such layer's error; otherwise every listed layer's paint at the index has the properties merged in and every other layer is kept |
| PropertyEdits.SetFillProperties | src/js/models/elementstructure.js:1300-1318 | the paint edit on fills, leaving every listed layer's strokes alone |
| PropertyEdits.SetStrokeProperties | src/js/models/elementstructure.js:1355-1373 | the paint edit on strokes, leaving every listed layer's fills alone |
| PropertyEdits.AppendFill | src/js/models/elementstructure.js:1332-1334 | one more fill, at the end, the old fills kept in front; a layer without fills gets a list of that one |
| PropertyEdits.AddFill | src/js/models/elementstructure.js:1327-1345 | fails on an id the map lacks; otherwise every listed layer gets the fill appended, the others kept |
| PropertyEdits.Holes | src/js/models/elementstructure.js:1397 | a run of empty slots of the given length |
| PropertyEdits.ListSet | src/js/models/elementstructure.js:1397 | List.set writes a slot inside the list; past the end the list grows with empty slots up to the new one; before the start it grows at the front |
| PropertyEdits.AddStrokeAsWritten | src/js/models/elementstructure.js:1385-1409 | as written, the call fails whenever there is a layer to give a stroke: the stroke constructor is not among the file's imports |
| PropertyEdits.SetStroke | src/js/models/elementstructure.js:1395-1397 | the layer's strokes hold the stroke at the index, or are just that stroke when it had none; nothing else changes |
| PropertyEdits.StrokeEntries | src/js/models/elementstructure.js:1386-1392 | one update per listed layer, each with the stroke the descriptor gives for that position |
| PropertyEdits.AddStroke | src/js/models/elementstructure.js:1385-1409 | the corrected edit: fails on a missing layer or a missing per-layer descriptor; otherwise every listed layer gets its stroke, the others kept |
| PropertyEdits.AddStrokeFixed | src/js/models/elementstructure.js:1385-1409 | where the written edit fails, the corrected one succeeds, gives every listed layer its stroke and keeps the others |
| PropertyEdits.NextEffects | src/js/models/elementstructure.js:1437-1444 | the effect at the position (a fresh default if the slot is empty) with the properties merged, stored back there; a missing position appends |
| PropertyEdits.UpdateEffect | src/js/models/elementstructure.js:1444-1446 | the layer's effects of the type updated, marked as having had an effect, nothing else changed |
| PropertyEdits.SetLayerEffectProperties | src/js/models/elementstructure.js:1420-1453 | an unknown type fails with the source's message and a missing layer fails; otherwise the index stays and every listed layer's effects of the type are updated by its last entry |
| PropertyEdits.SetLayerEffectEach | src/js/models/elementstructure.js:1420-1453 | with one position and one set of properties for all, every listed layer is updated alike and layers not listed are kept |
| PropertyEdits.RemoveAt | src/js/models/elementstructure.js:1473-1475 | the list without the entry at a position inside it; any other position removes nothing |
| PropertyEdits.EditEffects | src/js/models/elementstructure.js:1468-1478 | a listed layer that has effects of the type gets them edited; any other layer is returned as it is |
| PropertyEdits.DeleteLayerEffectProperties | src/js/models/elementstructure.js:1463-1483 | an unknown type fails; otherwise the index and keys stay and every listed layer with the type loses the effect at the position |
| PropertyEdits.DeleteAllLayerEffects | src/js/models/elementstructure.js:1492-1510 | an unknown type fails; otherwise the index and keys stay and every listed layer with the type has none left |
| PropertyEdits.DeleteAllLayerEffectsIdempotent | src/js/models/elementstructure.js:1492-1510 | afterwards a listed layer that had the type has an empty list, and emptying again changes nothing |
| PropertyEdits.MergeStyle | src/js/models/elementstructure.js:1523-1529 | a text layer gets the properties merged into the one style, the other style and every other field kept; a non-text layer is left alone |
| PropertyEdits.TextError | src/js/models/elementstructure.js:1523-1525 | no error exactly when the layer is stored and is a text layer |
| PropertyEdits.SetTextStyleProperties | src/js/models/elementstructure.js:1521-1557 | fails exactly when some listed layer is missing or not a text layer; otherwise the index and keys stay, listed layers get the merged style and the others are kept |
| DragAndDrop.FirstCompatible | src/js/stores/draganddrop.js:236-251 | the found position is a compatible droppable with no compatible one before it; nothing is found exactly when no droppable is compatible |
| DragAndDrop.FirstCompatibleIgnoresRest | src/js/stores/draganddrop.js:236-251 | the search stops at the first compatible droppable, so droppables after it do not change the answer |
| DragAndDrop.MoveToFront | src/js/stores/draganddrop.js:259-266 | the found droppable comes first, the others keep their order, and the list is a permutation of the old one |
| DragAndDrop.Resolve | src/js/stores/draganddrop.js:226-267 | the drop target is set exactly when the first compatible droppable is valid, and is that droppable; the list is a permutation with the first compatible droppable moved to the front, and unchanged when none is compatible |
| DragAndDrop.ResolveSettles | src/js/stores/draganddrop.js:216-266 | a second search at the same point finds the same target first and leaves the list as it is |
| DragAndDrop.KeyIndex | src/js/stores/draganddrop.js:131 | a string key reads as a list position only when it is the canonical decimal form of an array index |
| DragAndDrop.KeyIndexExact | src/js/stores/draganddrop.js:131 | a key reads as position n exactly when it is n written in decimal and n is an array index |
| DragAndDrop.DeleteKeyAsWritten | src/js/stores/draganddrop.js:131 | List.delete with a string key removes the element at the position the key spells, and nothing when it spells none in range |
| DragAndDrop.RemoveKeysAsWritten | src/js/stores/draganddrop.js:123-135 | as written the removal only ever drops droppables, and keys that spell no position drop none |
| DragAndDrop.RemoveKeys | src/js/stores/draganddrop.js:123-135 | with the evident intent a droppable stays exactly when its key is not among the removed keys |
| DragAndDrop.RegisterThenRemove | src/js/stores/draganddrop.js:142-171 | registering a droppable with a fresh key and deregistering that key gives back the old list |
| DragAndDrop.RemoveByKeyFinding | src/js/stores/draganddrop.js:123-135 | as written key "a" removes nothing and key "1" removes the second droppable; the intended removal drops the droppable keyed "a" |
| DragAndDrop.DragAndDropStore.ZoneList | src/js/stores/draganddrop.js:114-117 | a zone never registered has no droppables |
| DragAndDrop.DragAndDropStore.constructor | src/js/stores/draganddrop.js:73-86 | the store starts with no zones, no drag, no drop target, no drag position and no change notifications sent |
| DragAndDrop.DragAndDropStore.StartDragging | src/js/stores/draganddrop.js:97-100 | the drag targets are set and one change notification is sent; nothing else changes |
| DragAndDrop.DragAndDropStore.StopDragging | src/js/stores/draganddrop.js:102-111 | a pending drop target's handler runs once with its model object; drop target, drag targets and position are cleared and the drag targets become the past ones; one change notification is sent |
| DragAndDrop.DragAndDropStore.AddDroppables | src/js/stores/draganddrop.js:113-121 | the zone's list, empty when missing, gets the droppables appended; nothing else changes |
| DragAndDrop.DragAndDropStore.RegisterDroppable | src/js/stores/draganddrop.js:142-147 | the zone's list gets the one droppable appended |
| DragAndDrop.DragAndDropStore.BatchRegisterDroppables | src/js/stores/draganddrop.js:154-159 | the zone's list gets the batch appended |
| DragAndDrop.DragAndDropStore.RemoveDroppables | src/js/stores/draganddrop.js:123-135 | fails with the source's message exactly for an unknown zone, changing nothing; otherwise the zone keeps the droppables whose keys are not removed |
| DragAndDrop.DragAndDropStore.DeregisterDroppable | src/js/stores/draganddrop.js:166-171 | removal of one key, failing exactly for an unknown zone |
| DragAndDrop.DragAndDropStore.BatchDeregisterDroppables | src/js/stores/draganddrop.js:178-183 | removal of several keys, failing exactly for an unknown zone |
| DragAndDrop.DragAndDropStore.ResetDroppables | src/js/stores/draganddrop.js:190-196 | the zone's list becomes exactly the new droppables |
| DragAndDrop.DragAndDropStore.CheckBounds | src/js/stores/draganddrop.js:226-267 | without a drag nothing changes; with one, an unknown zone fails; otherwise the drop target and the zone's list become Resolve's |
| DragAndDrop.DragAndDropStore.MoveAndCheckBounds | src/js/stores/draganddrop.js:206-210 | checks the bounds as CheckBounds does and then records the point as the drag position and sends one change notification; when the bounds check fails, nothing is recorded or sent |
| DragAndDrop.OneDrag | src/js/stores/draganddrop.js:97-111 | one drag over a zone calls the drop handler once, with the first compatible droppable's object, exactly when that droppable is valid, and sends three change notifications |
| LayersPanel.OrZero | src/js/jsx/sections/layers/LayersPanel.jsx:267-276 | a missing (null) depth or position counts as 0 in the rules' arithmetic |
| LayersPanel.InsideFinding | src/js/jsx/sections/layers/LayersPanel.jsx:336-337 | as written, a point right of a high row counts as over it and a point over a row lower than the panel's width does not; the corrected test says the opposite for both |
| LayersPanel.InsideAsWritten | src/js/jsx/sections/layers/LayersPanel.jsx:336-337 | as written the point is inside exactly when its y lies between the top and bottom edges and also at most the right edge, and its x is at least the left edge; x is never compared with the right edge |
| LayersPanel.Inside | src/js/jsx/sections/layers/LayersPanel.jsx:336-337 | the corrected test accepts exactly the points within the four edges, edges included |
| LayersPanel.DropAbove | src/js/jsx/sections/layers/LayersPanel.jsx:344-349 | the drop goes above the row exactly when the point is above the row's middle line |
| LayersPanel.NestLimit | src/js/jsx/sections/layers/LayersPanel.jsx:268-277 | the limit is 1 when some dragged layer is an artboard and the Photoshop nesting limit otherwise |
| LayersPanel.NestDepth | src/js/jsx/sections/layers/LayersPanel.jsx:272-279 | a dragged layer's nest depth is never less than the target's depth, plus one for a drop below; a layer outside the tree counts as a leaf |
| LayersPanel.AnyOver | src/js/jsx/sections/layers/LayersPanel.jsx:272-280 | the `some` over the dragged layers finds a layer over the limit exactly when some layer of the list is over it |
| LayersPanel.NestLimitExceeded | src/js/jsx/sections/layers/LayersPanel.jsx:264-284 | the nesting limit is exceeded exactly when some dragged layer's nest depth is above the drag's limit |
| LayersPanel.Blocks | src/js/jsx/sections/layers/LayersPanel.jsx:291-298 | the target itself blocks; any other blocking layer is a group end with the drop above |
| LayersPanel.Contains | src/js/jsx/sections/layers/LayersPanel.jsx:286-302 | a drag that holds the target itself always contains it; an empty drag contains nothing |
| LayersPanel.DescendsFromMember | src/js/jsx/sections/layers/LayersPanel.jsx:286-302 | a layer is reached by the worklist exactly when it is a descendant of some dragged layer |
| LayersPanel.DescendantsOfEachConcat | src/js/jsx/sections/layers/LayersPanel.jsx:301 | the layers reached from a concatenated worklist are those reached from each part |
| LayersPanel.DescendantsOfEachReverse | src/js/jsx/sections/layers/LayersPanel.jsx:301 | reversing the worklist keeps the number of layers reached |
| LayersPanel.WorklistStep | src/js/jsx/sections/layers/LayersPanel.jsx:287-302 | taking the first layer and queueing its children shrinks what is left to visit by one and keeps the answer: blocked by that layer or by what is left |
| LayersPanel.WorklistAdvance | src/js/jsx/sections/layers/LayersPanel.jsx:287-302 | the same step stated for any non-empty worklist: the measure decreases and the answer is kept |
| LayersPanel.ScanOver | src/js/jsx/sections/layers/LayersPanel.jsx:272-280 | the scan of dragged layers returns exactly whether one is over the limit |
| LayersPanel.NestLimitCheck | src/js/jsx/sections/layers/LayersPanel.jsx:266-284 | returns exactly whether some dragged layer would nest past the limit |
| LayersPanel.AnyOverPrefix | src/js/jsx/sections/layers/LayersPanel.jsx:272-280 | a layer over the limit in a prefix is over the limit in the whole list |
| LayersPanel.ContainsCheck | src/js/jsx/sections/layers/LayersPanel.jsx:286-304 | the worklist loop returns exactly whether some dragged layer or a descendant is the target, or a group end just below it with a drop above |
| LayersPanel.ValidCompatibleDropTargetHelper | src/js/jsx/sections/layers/LayersPanel.jsx:257-305 | returns exactly the rule: not below the background, not past the nesting limit, not into the dragged layers |
| LayersPanel.Answer | src/js/jsx/sections/layers/LayersPanel.jsx:338-363 | outside the row both flags are false; inside it the row is compatible and valid exactly when the rule allows the drop above or below as the point decides |
| LayersPanel.ValidDropTargetAsWritten | src/js/jsx/sections/layers/LayersPanel.jsx:332-364 | as written the row is compatible exactly when the written hit test passes, and valid exactly when it is compatible and the drop rules allow the drop at the side the point picks |
| LayersPanel.ValidDropTarget | src/js/jsx/sections/layers/LayersPanel.jsx:332-364 | with the corrected hit test the row is compatible exactly when the point is within its edges, and valid exactly when also the rule allows the drop |
| LayersPanel.CompatibleDropAllowed | src/js/jsx/sections/layers/LayersPanel.jsx:257-305 | an allowed drop is never below the background and never onto a dragged layer |
| LayersPanel.ArtboardDepth | src/js/jsx/sections/layers/LayersPanel.jsx:264-284 | a drag holding an artboard that would nest deeper than 1 is rejected |
| LayersPanel.DropRules.constructor | src/js/jsx/sections/layers/LayersPanel.jsx:433-437 | a drag starts with both validity caches empty |
| LayersPanel.DropRules.ValidCompatibleDropTarget | src/js/jsx/sections/layers/LayersPanel.jsx:307-322 | the answer is always the rule's; a cached answer is returned without changing the cache; otherwise it is computed and stored in the cache for that direction only |
| LayersPanel.DropRules.ValidDropTargetCached | src/js/jsx/sections/layers/LayersPanel.jsx:332-364 | the cached path gives the same answer as the corrected ValidDropTarget |
| LayersPanel.DraggingLayers | src/js/jsx/sections/layers/LayersPanel.jsx:408-431 | a selected layer drags exactly the selected non-background layers, in index order; an unselected one drags alone |
| LayersPanel.IdsOf | src/js/jsx/sections/layers/LayersPanel.jsx:455 | the ids of the dragged layers, in order |
| LayersPanel.HandleStop | src/js/jsx/sections/layers/LayersPanel.jsx:444-474 | no drag means no reorder; a drag without a drop target fails; otherwise the reorder carries the dragged ids and the target's position less one for a drop below |
| LayersPanel.DropIndexTarget | src/js/jsx/sections/layers/LayersPanel.jsx:449 | for a target in the index, a drop above goes to the target's own position and a drop below to the one before |
| ExportAssets.StatusText | src/js/models/exportasset.js:34-38 | the three statuses are stored as "new", "requested" and "stable", and only New reads "new" and only Stable reads "stable" |
| ExportAssets.Defaults | src/js/models/exportasset.js:44-66 | a fresh record has no file path, scale 1, format "png" and status "new" |
| ExportAssets.Merge | src/js/models/exportasset.js:44-66 | merging props into an asset: every field the props give overrides, every absent field keeps the asset's value |
| ExportAssets.MergeIdempotent | src/js/models/exportasset.js:44-66 | merging the same props a second time changes nothing |
| ExportAssets.FromProps | src/js/models/exportasset.js:44-66 | a record built from props is the defaults with the given fields, so a given scale is kept |
| ExportAssets.SetStatusRequested | src/js/models/exportasset.js:77-79 | the status reads "requested" and file path, scale and format are unchanged |
| ExportAssets.SetStatusStable | src/js/models/exportasset.js:81-83 | the status reads "stable" and file path, scale and format are unchanged |
| ExportAssets.StatusSettersIdempotent | src/js/models/exportasset.js:77-83 | each status setter applied twice equals it applied once |
| ExportAssets.FractionText | src/js/models/exportasset.js:73-75 | the fraction part of a written scale is empty exactly for a whole number, otherwise a point and one or two digits |
| ExportAssets.UnsignedText | src/js/models/exportasset.js:73-75 | the written magnitude is non-empty and holds neither an at sign nor a minus sign |
| ExportAssets.ScaleText | src/js/models/exportasset.js:73-75 | the written scale is non-empty, holds no at sign, and starts with a minus sign exactly for a negative scale |
| ExportAssets.GetId | src/js/models/exportasset.js:73-75 | the id starts with the format followed by an at sign |
| ExportAssets.SplitAtMark | src/js/models/exportasset.js:73-75 | two strings cut at the first mark: equal concatenations with mark-free heads have equal heads and tails |
| ExportAssets.FractionTextInjective | src/js/models/exportasset.js:73-75 | equal fraction texts come from equal fractions |
| ExportAssets.UnsignedTextInjective | src/js/models/exportasset.js:73-75 | equal written magnitudes come from equal magnitudes |
| ExportAssets.ScaleTextInjective | src/js/models/exportasset.js:73-75 | equal written scales come from equal scales |
| ExportAssets.GetIdInjective | src/js/models/exportasset.js:68-75 | the composite id determines the asset's format and scale, for formats without an at sign |
| ExportAssets.GetIdExamples | src/js/models/exportasset.js:44-75 | the default asset's id is "png@1" |
| ExportAssets.ScaleTextExamples | src/js/models/exportasset.js:73-75 | scales 1.5, 0.25 and -0.5 are written "1.5", "0.25" and "-0.5" |
| ExportDocuments.Empty | src/js/models/documentexports.js:36-48 | a fresh record has neither root exports nor a layer map |
| ExportDocuments.OrEmpty | src/js/models/documentexports.js:91 | a null list reads as the empty list, a present list as itself |
| ExportDocuments.Lookup | src/js/models/documentexports.js:51 | a layer's list is found exactly when the map has the layer, and is the map's entry |
| ExportDocuments.LayerExportsArray | src/js/models/documentexports.js:50-58 | fails exactly on a null layer map; otherwise the layer's list, empty when the layer has none |
| ExportDocuments.RootExportsArray | src/js/models/documentexports.js:60-66 | the root exports, empty when there are none |
| ExportDocuments.FromEach | src/js/models/documentexports.js:79-82 | one record per props object, in order, each built from its props |
| ExportDocuments.AssetsOf | src/js/models/documentexports.js:77-83 | a layer's records: none when it lists no exports, else one per listed props object |
| ExportDocuments.LayerIds | src/js/models/documentexports.js:76-85 | every id in the set belongs to some listed layer |
| ExportDocuments.LayerIdsComplete | src/js/models/documentexports.js:76-85 | every listed layer's id is in the set |
| ExportDocuments.LayerMap | src/js/models/documentexports.js:74-85 | the map has an entry for exactly the listed layer ids |
| ExportDocuments.LayerMapLast | src/js/models/documentexports.js:76-85 | a layer's entry holds the records of the last layer listed with that id |
| ExportDocuments.Described | src/js/models/documentexports.js:69-88 | a described document has no root exports and a layer map, empty when no layers are listed |
| ExportDocuments.BuildAssets | src/js/models/documentexports.js:77-83 | the push loop over one layer's props builds exactly the records FromEach describes |
| ExportDocuments.LayerMapStep | src/js/models/documentexports.js:84 | each layer of the outer loop sets that layer's entry of the map |
| ExportDocuments.FromDescriptors | src/js/models/documentexports.js:69-88 | the two nested loops build exactly the described record |
| ExportDocuments.DescribedLayerArray | src/js/models/documentexports.js:50-88 | after fromDescriptors a layer's list is that of the last layer listed with its id, and empty for an unlisted layer |
| ExportDocuments.FindScale | src/js/models/documentexports.js:97-99 | the position found is the first asset with the props' scale; none found means no asset has it |
| ExportDocuments.FirstWithScale | src/js/models/documentexports.js:97-99 | the position is inside the list and every asset with the scale sits at it or later |
| ExportDocuments.UpsertList | src/js/models/documentexports.js:90-107 | without props the (null-as-empty) list comes back unchanged; with props the length grows by at most one |
| ExportDocuments.UpsertCases | src/js/models/documentexports.js:97-106 | with an asset of the props' scale, the first one is merged in place and nothing else changes; without one, a new record is appended |
| ExportDocuments.UpsertIdempotent | src/js/models/documentexports.js:90-107 | upserting the same scaled props twice equals upserting them once |
| ExportDocuments.UpsertWithoutScaleAppends | src/js/models/documentexports.js:97-105 | props without a scale match no asset, so each upsert appends another record |
| ExportDocuments.MergedLayers | src/js/models/documentexports.js:113-122 | named layers get their upserted lists, other layers keep theirs, and the key set is the union |
| ExportDocuments.LayerMapOf | src/js/models/documentexports.js:117-126 | the layer map a merge reads; the empty-list placeholder reads as an empty map |
| ExportDocuments.MergedAsWritten | src/js/models/documentexports.js:109-128 | fails, with the source's message, exactly for layer props over a null layer map; upserts the root list; with layer props every layer's list is the upsert of the props into the old one; without them the layer map becomes the empty-list placeholder |
| ExportDocuments.NullLayersError | src/js/models/documentexports.js:112-121 | over a null layer map, an empty set of layer props fails at the final `merge` and any other at the first `get` |
| ExportDocuments.Merged | src/js/models/documentexports.js:109-128 | as MergedAsWritten, with the null-map error text, except that without layer props the layer map is kept |
| ExportDocuments.MergedIdempotent | src/js/models/documentexports.js:109-128 | merging an update whose props all name a scale a second time changes nothing |
| ExportDocuments.MergedLayerArray | src/js/models/documentexports.js:50-58 | after a merge with layer props a named layer's list is the upsert of its old list |
| ExportDocuments.GatherLayerProps | src/js/models/documentexports.js:114-119 | the forEach loop gathers, for exactly the named layers, their upserted lists |
| ExportDocuments.OverlayIsMerged | src/js/models/documentexports.js:121 | laying the gathered lists over the old map gives MergedLayers |
| ExportDocuments.FancyMerge | src/js/models/documentexports.js:109-128 | the loop-and-overlay procedure returns exactly Merged |
| ExportDocuments.RootUpdateDropsLayerExports | src/js/models/documentexports.js:124-127 | a root-only update of a document with one layer asset loses that asset as written, and keeps it in the corrected merge |
| ExportStores.ExportStore.constructor | src/js/stores/export.js:45-46 | the store starts with no documents |
| ExportStores.ValidDocumentID | src/js/stores/export.js:82-83 | a document id is usable exactly when it is present and not zero |
| ExportStores.ValidDocumentExports | src/js/stores/export.js:84-86 | usable exports are present; present exports are usable exactly when they carry root props or layer props |
| ExportStores.ExportStore.DocumentHasExports | src/js/stores/export.js:56-58 | true exactly when the store holds the document |
| ExportStores.ExportStore.GetDocumentExports | src/js/stores/export.js:60-62 | the document's record when the store holds it, nothing otherwise |
| ExportStores.ExportStore.DocumentUpdated | src/js/stores/export.js:64-69 | the document's record becomes the described one and every other document keeps its record |
| ExportStores.ExportStore.AssetUpdated | src/js/stores/export.js:78-96 | an unusable document id or unusable exports fail with the source's messages and change nothing; otherwise the merge into the current (or fresh) record is stored, with one change notification, exactly when it differs |
| ExportStores.ExportStore.DeleteExports | src/js/stores/export.js:98-100 | the store forgets every document |
| ExportStores.RepeatedAssetUpdate | src/js/stores/export.js:78-96 | repeating a scaled asset update succeeds again and adds no second change notification |
| ExportStores.DescribeThenRead | src/js/stores/export.js:56-69 | a document described and then read back gives the described record |
| Svg.NumberNotLinked | src/js/util/svg.js:41-46 | a class made of a prefix and a kind number never ends in "-linked" |
| Svg.LayerClass | src/js/util/svg.js:37-50 | every layer class starts with "layer-"; the four cases in order of precedence: an artboard gets "layer-artboard"; otherwise a background gets the pixel kind's number; otherwise a linked smart object gets the smart-object kind's number and "-linked"; any other layer gets its own kind's number |
| Svg.LayerClassLinked | src/js/util/svg.js:37-50 | the class ends in "-linked" exactly for a linked smart object that is not an artboard |
| Svg.LayerClassArtboard | src/js/util/svg.js:39-40 | the class is "layer-artboard" exactly for an artboard |
| Svg.KindText | src/js/util/svg.js:84 | a kind name the table knows is written as its number, an unknown one as "undefined" |
| Svg.ToUpper | src/js/util/svg.js:84 | upper-casing keeps the length and raises exactly the lower-case ASCII letters |
| Svg.FirstSpace | src/js/util/svg.js:84 | the position of the first space: a space, with none before it |
| Svg.RemoveFirstSpace | src/js/util/svg.js:84 | a name without a space is unchanged; otherwise it is the name with the character at the first space's position cut out, everything before and after kept |
| Svg.IconFor | src/js/util/svg.js:72-85 | fill types get "tool-rectangle"; every other type a "layer-" class; "artboard" gets "layer-artboard"; "background" gets the pixel kind's entry; a smart object in a linked list gets the linked smart-object class; any other name gets "layer-" and the table's entry for the name upper-cased with its first space removed ("undefined" when the table lacks it) |
| Svg.Icons | src/js/util/svg.js:71-90 | one icon per type name other than "layer", in list order, each the icon of that name |
| Svg.Join | src/js/util/svg.js:64 | joining no names gives "" and one name gives that name |
| Svg.HasWordSplit | src/js/util/svg.js:64 | a space-free word found in two strings joined by a space lies within one of them |
| Svg.SpaceInWindow | src/js/util/svg.js:64 | a window holding a space cannot equal a space-free word |
| Svg.HasWordJoined | src/js/util/svg.js:64 | a space-free word occurs in "a b" exactly when it occurs in a or in b |
| Svg.HasWordJoin | src/js/util/svg.js:64 | the joined names contain "layer" exactly when some single name does |
| Svg.Classes | src/js/util/svg.js:59-93 | no names give no classes; one name gives ["tool-rectangle"]; otherwise, when the joined names mention "layer", one icon per non-"layer" name |
| Svg.ClassesByNames | src/js/util/svg.js:64-66 | with two or more names: no name mentioning "layer" gives ["tool-rectangle"], and some name mentioning it gives the icon list |
| Svg.ArrayHasLinkedNever | src/js/util/svg.js:69 | an array never has an own property named "linked" |
| Svg.ClassesAsWritten | src/js/util/svg.js:59-93 | as written the list never counts as linked, so the answer is that of an unlinked list |
| Svg.ClassesFixed | src/js/util/svg.js:59-93 | with the intended test, a list without "linked" gets the same classes as written |
| Svg.LayerMentionsLayer | src/js/util/svg.js:64 | the name "layer" mentions "layer" |
| Svg.ClassesFixedLinked | src/js/util/svg.js:69-82 | with the intended test, a list naming "linked", "smart object" and "layer" gets the linked smart-object class |
| Svg.IconsStep | src/js/util/svg.js:71-90 | one more name adds its icon at the end exactly when it is not "layer" |
| Svg.SvgClassesFromLayerTypes | src/js/util/svg.js:59-93 | the forEach loop that pushes icons returns exactly ClassesFixed |
| Svg.KindTextNotLinked | src/js/util/svg.js:84 | a class built from a table lookup never ends in "-linked" |
| Svg.IconNotLinked | src/js/util/svg.js:72-85 | in an unlinked list no icon ends in "-linked" |
| Svg.RectangleNotLinked | src/js/util/svg.js:65 | "tool-rectangle" does not end in "-linked" |
| Svg.ClassesAsWrittenNeverLinked | src/js/util/svg.js:69-82 | as written no class of any list ends in "-linked" |
| Svg.ExampleMentionsLayer | src/js/util/svg.js:64 | the joined example list "smart object", "layer", "linked" mentions "layer" |
| Svg.ExampleFilter | src/js/util/svg.js:87-89 | dropping "layer" from the example list leaves "smart object" and "linked" |
| Svg.ExampleIcons | src/js/util/svg.js:64-93 | the example list gets the icon list whatever its linked flag |
| Svg.ExampleSmartObjectText | src/js/util/svg.js:82 | the example table writes the smart-object kind as "5" |
| Svg.FirstIconLinked | src/js/util/svg.js:69-82 | a list that starts with "smart object" and names "linked" gets the linked class first, with the intended test |
| Svg.ExampleFixed | src/js/util/svg.js:69-82 | the example list's first class is "layer-5-linked" with the intended test |
| Svg.LinkedIconText | src/js/util/svg.js:82 | "layer-" + "5" + "-linked" is "layer-5-linked" |
| Svg.ExampleAsWritten | src/js/util/svg.js:69-82 | as written the example list gets two classes and the first does not end in "-linked" |

## Left out

- Memoisation of the structure's getters and lookups through `cachedGetSpecs` and `cachedLookupSpec` affects only speed. The queries are plain functions.
- `_extractID` draws from `Math.random` and its result is unused. `_extractMaterials` converts float colours. Neither is modelled.
- `Element.fromDescriptor`, `Element.fromGroupDescriptor`, `Element.newLayerEffectByType` and `Element.layerEffectTypes`, and the element methods `getLayerEffectsByType`, `setLayerEffectByType` and `setLayerEffectsByType`, are not defined by the 3-D element model (src/js/models/element.js:45-145). So the calls at src/js/models/elementstructure.js:889, :961, :1242-1243, :1423, :1429, :1442, :1444, :1464, :1469, :1477, :1493, :1498 and :1504 fail as written. The model takes the new layer ready-made in each `LayerEdits.LayerDescriptor`, and the effect defaults as a parameter of `PropertyEdits.SetLayerEffectProperties`. The group head and group end are the concrete elements `StructureEdits.GroupHeadElement` and `StructureEdits.GroupEndElement`.
- `Bounds.resetFromDescriptor`, `Fill`, `Stroke` and the effect type sets are parameters or abstract values. Bounds are integer rectangles, and fills, strokes and effects are lists of property bags.
- The 3-D structure record has no `layers` field or getter. As written, `resetLayers`, `replaceLayersByIndex`, `resetBounds`, `updateOrder`, `deleteLayers`, `createGroup`, and `_setTextStyleProperties` fail on `this.layers`, and `addLayers` fails on `layerStructure.layers`. The same holds for every mutator that merges under `layers`: through `_updateBounds`, `resizeLayers`, `repositionLayers`, `updateBounds` and `translateLayers`; and `setLayersProportional`, `setBorderRadii`, `setFillProperties`, `addFill`, `setStrokeProperties` and `addStroke`. The model's `LayerEdits.ResetLayers`, `LayerEdits.ReplaceLayersByIndex`, `LayerEdits.AddLayers`, `PropertyEdits.ResetBounds`, `StructureEdits.UpdateOrder`, `StructureEdits.DeleteLayers`, `StructureEdits.CreateGroup`, `PropertyEdits.DeleteLayerEffectProperties`, `PropertyEdits.DeleteAllLayerEffects`, `PropertyEdits.SetTextStyleProperties`, `PropertyEdits.ResizeLayers`, `PropertyEdits.RepositionLayers`, `PropertyEdits.UpdateBounds`, `PropertyEdits.TranslateLayers`, `PropertyEdits.SetLayersProportional`, `PropertyEdits.SetBorderRadii`, `PropertyEdits.SetFillProperties`, `PropertyEdits.AddFill`, `PropertyEdits.SetStrokeProperties`, `PropertyEdits.AddStroke` and `PropertyEdits.SetLayerEffectProperties` read and write the `elements` map in its place. The as-written failure is shown once, by `RecordKeys.SetLayersProportionalAsWritten` (see "Findings").
- PropertyEdits.SetLayerEffectProperties, PropertyEdits.DeleteLayerEffectProperties and PropertyEdits.DeleteAllLayerEffects: as written all three fail at their first line, because `Element.layerEffectTypes` is undefined and `.has` is read from it (src/js/models/elementstructure.js:1423, :1464, :1493); they never reach `this.layers` or the `layers` merge. The model takes the set of effect types as a parameter and models the intended check, so its `InvalidEffectType` error is reachable only in the model; it reads and writes a layer's effects of one type directly, in place of the undefined `getLayerEffectsByType`, `setLayerEffectByType` and `setLayerEffectsByType`.
- SceneTree.StepAt: the scan keys each node by `element.index` (src/js/models/scenetreenode.js:88), a field the 3-D element record does not declare, so as written every node is keyed by `undefined`. The model reads `element.index` as the element's id, the key the structure's queries look nodes up by.
- `StructureEdits.UpdateSelection` sets `selected` on each element. The 3-D element record declares no such field, so as written `element.set("selected", …)` fails too; the model's element has the field.
- Several structure getters outside the listed operations are not modelled: `selectable` (with `topBelowArtboards`, `hasVisibleDescendant` and `superSelectable`), `leaves`, `hasArtboard`, `backgroundSelected`, `hasLinkedSmartObjects`, `selectedChildBounds`, `selectedAreaBounds`, `allVisibleReversed`, `unsupported`, `lockedAncestors`, `lockedDescendants` and `hasLockedDescendant`. The ancestor climb `_replaceAncestorWithSiblingsOf` that `selectable` uses is modelled.
- `_validDropTargetIndex` in the layer panel reads a DOM node. It is not modelled, and neither is the rest of the panel's rendering, scrolling and `setState`.
- React components, `Draggable` mouse plumbing, the action modules, the export web-socket service and the libraries store are not part of this model.
- Change notifications are a ghost counter in each store (`changes` of the export store and of the drag store), not calls to listeners. `onDrop` calls are a ghost log of the dropped keys. `isValid`, `onDrop` and the compatibility test are parameters.
- Given a group whose insertion index is never found, `_insertGroupEnds` loops forever. `GroupEnds.InsertGroupEnds` returns an error instead.
- Immutable's `Map` iterates more than eight integer keys in hash order. The model uses insertion order throughout.
- `AncestorSiblings.ReplaceAncestorWithSiblingsOf` receives the shared visited-parents object as a set of ids and returns the updated set; the aliasing itself is not modelled.
- ElementStructure.IsEmptyGroup: its own contract states only that an empty group is a GROUP with a child. The converse direction, that the rule makes a group empty, is `ElementStructure.EmptyGroupWitness`.
- GroupEnds.FromRawElement: the 3-D element record declares only a name, a kind and the element kinds. The id, the parent flag, the expansion and the GROUPEND kind for node type 13 are the fields the scene-tree scan needs, and are this model's reading of what the parser is meant to produce. As written it produces the default record for every node (`GroupEnds.FromRawElementAsWritten`, see "Findings").
- GroupEnds.FromLayerDescriptor: it uses the corrected marker placement `GroupEnds.NestedEnds` and the corrected `GroupEnds.FromRawElement`. The conversion as written is `GroupEnds.FromLayerDescriptorAsWritten`.
- GroupEnds.ElementsOf: the source keys each element by its raw position (`elements.set(idx, …)`) while lookups use element ids. The model makes the two agree by giving each element its position as id.
- LayerEdits.PatchEach: `mergeDeep` inserts a bare property map under a listed id that the map does not hold. The model passes such ids over and keeps the key set. The same holds for PropertyEdits.SetProperties, PropertyEdits.SetLayersProportional and PropertyEdits.SetBorderRadii, which are built on it.
- PropertyEdits.SetProperties: an unlisted id is passed over, where `mergeDeep` adds a bare property map for it (see LayerEdits.PatchEach).
- PropertyEdits.SetLayersProportional: an id the map does not hold is passed over, where `mergeDeep` adds a bare property map for it.
- PropertyEdits.SetBorderRadii: an id the map does not hold is passed over, where `mergeDeep` adds a bare property map for it.
- PropertyEdits.ApplyProps: a patch covers only the modelled fields (name, visibility, lock, expansion). In the source a property key the record does not declare fails with "Cannot set unknown key".
- LayerEdits.ReplaceCandidate: without an explicit id it reads this structure's selection. The source reads `document.layers.selected`, the structure held by the document object passed in, which the model does not separate from this one.
- LayersPanel.DraggingLayers: it reads the selection of the structure it is given, where the source reads `doc.layers.selected` of the panel's document.
- LayersPanel: cursor points and row bounds are integers; the source compares JavaScript numbers.
- ExportAssets: the scale is kept as an integer number of hundredths (150 for 1.5). The source stores a JavaScript float, so scales finer than a hundredth are not modelled.
- ExportDocuments.LayerMapOf: the empty `Immutable.List()` placeholder that a root-only update leaves is read as an empty layer map. In the source a later layer update merges the plain layer map into that list, which yields a list of key-value pairs. The layer exports are then not readable by layer id, so `layerExportsArray(7)` after a root-only and then a layer-7 update is empty, where the model finds the layer-7 assets. The list-of-pairs state does not fit the model's map type.
- ExportDocuments.MergedAsWritten: a layer update over the empty-list placeholder merges into an empty map (see ExportDocuments.LayerMapOf), not into a list of pairs.
- DragAndDrop.DragAndDropStore.RemoveDroppables: it removes by key with the corrected `DragAndDrop.RemoveKeys`. The source's `List.delete(key)` reads the key as a position, modelled by `DragAndDrop.RemoveKeysAsWritten` (see "Findings").
- DragAndDrop.DragAndDropStore.DeregisterDroppable: it removes by key through the corrected removal, as RemoveDroppables does.
- DragAndDrop.DragAndDropStore.BatchDeregisterDroppables: it removes by key through the corrected removal, as RemoveDroppables does.
- ExportStores.ExportStore.AssetUpdated: it merges with `ExportDocuments.FancyMerge`, which keeps the layer exports on a root-only update (`ExportDocuments.Merged`). The merge as written is `ExportDocuments.MergedAsWritten` (see "Findings"). The `log.debug` of the payload is output only and is not modelled.
- ExportStores.RepeatedAssetUpdate: it is stated over the corrected merge, as AssetUpdated is.
- Svg.ToUpper: it raises only the ASCII letters a to z. JavaScript's `toUpperCase` also maps other letters, which icon names here do not contain.
- ElementStructure.SelectedNormalized: its own contract bounds only the length. Which elements it keeps is stated by `ElementStructure.SelectedNormalizedSpec`.

## Findings

| source | as written | input that shows it | evidently intended | confidence | as-written member | corrected member |
|---|---|---|---|---|---|---|
| src/js/models/elementstructure.js:119-154 | `_getInsertionIndex` skips only a group's direct child count, not the size of nested subtrees, so nested group ends close early | groups A, B, C, each with one child, nested, then a plain layer E: the markers land before E, leaving E outside A | every group end goes after the whole subtree of its group | not executed | GroupEnds.ThreeLevelsAsWritten, GroupEnds.ThreeLevelsClosedEarly, GroupEnds.FromLayerDescriptorAsWritten, GroupEnds.ThreeLevelsDescriptorAsWritten | GroupEnds.ThreeLevelsCorrected, GroupEnds.NestedEnds, GroupEnds.FromLayerDescriptor, GroupEnds.ThreeLevelsDescriptorCorrected |
| src/js/models/elementstructure.js:1123-1136 | `updateBounds` passes top and left to `updateSizeAndPosition(x, y, …)` | top 10, left 20, size 3 by 4: the layer's top becomes 20 and its left 10 | the layer's top is 10 and its left 20 | not executed | PropertyEdits.UpdateBoundsAsWritten, PropertyEdits.UpdateBoundsSwapsCorner | PropertyEdits.UpdateBounds |
| src/js/models/elementstructure.js:1279-1290 | `setBorderRadii` builds a `Radii` that the file never imports | any call | every listed layer gets the radii | not executed | PropertyEdits.SetBorderRadiiAsWritten | PropertyEdits.SetBorderRadii, PropertyEdits.SetBorderRadiiFixed |
| src/js/models/elementstructure.js:1385-1409 | `addStroke` builds a `Stroke` that the file never imports | any non-empty list of layer ids | every listed layer gets the stroke | not executed | PropertyEdits.AddStrokeAsWritten | PropertyEdits.AddStroke, PropertyEdits.AddStrokeFixed |
| src/js/stores/draganddrop.js:123-135 | `_removeDroppables` calls `List.delete` with the droppable's key, which the list reads as a position | droppables "a", "b": removing "a" keeps both; removing "1" removes "b" | the droppable with that key leaves the zone | not executed | DragAndDrop.DeleteKeyAsWritten, DragAndDrop.RemoveKeysAsWritten, DragAndDrop.RemoveByKeyFinding | DragAndDrop.RemoveKeys, DragAndDrop.DragAndDropStore.RemoveDroppables, DragAndDrop.DragAndDropStore.DeregisterDroppable, DragAndDrop.DragAndDropStore.BatchDeregisterDroppables |
| src/js/jsx/sections/layers/LayersPanel.jsx:336-337 | the hit test compares the point's y with the row's right edge | a row at 0–20 by 0–300 and the point (x 500, y 10) counts as inside; a row at 400–420 and the point (x 100, y 410) does not | the point's x is compared with the right edge | not executed | LayersPanel.InsideAsWritten, LayersPanel.InsideFinding, LayersPanel.ValidDropTargetAsWritten | LayersPanel.Inside, LayersPanel.ValidDropTarget |
| src/js/models/documentexports.js:109-128 | without layer props, `fancyMerge` replaces the layer map with an empty list | a document with one asset on layer 7, updated with a root asset at scale 2: layer 7 loses its asset | the layers' exports survive an update of the document's own assets | not executed | ExportDocuments.MergedAsWritten, ExportDocuments.RootUpdateDropsLayerExports | ExportDocuments.Merged, ExportDocuments.FancyMerge, ExportStores.ExportStore.AssetUpdated, ExportStores.RepeatedAssetUpdate |
| src/js/util/svg.js:59-93 | `_.has(layerTypes, "linked")` asks the array for a property named "linked", which no array has | the types "smart object", "layer", "linked" give the plain smart-object icon | the linked icon when "linked" is among the types | not executed | Svg.ClassesAsWritten, Svg.ClassesAsWrittenNeverLinked, Svg.ExampleAsWritten | Svg.ClassesFixed, Svg.ClassesFixedLinked, Svg.ExampleFixed |
| src/js/models/element.js:97-115 | `parseRawElement` builds the name and kind but returns nothing, so `fromRawElement` constructs the default record | any raw node, for example one named "E": its element has no name and no kind, the same as every other node's | the element carries the raw node's name and kind | not executed | GroupEnds.FromRawElementAsWritten, GroupEnds.RawElementsCollapse | GroupEnds.FromRawElement |
| src/js/models/elementstructure.js:1081-1091 | `setLayersProportional` merges its patches under `layers`, a key the 3-D structure record does not declare; the other mutators listed under "Left out" read or merge `layers` the same way | any call, for example layer 1 set proportional: Immutable refuses the unknown key | the patches go into the `elements` map | not executed | RecordKeys.SetLayersProportionalAsWritten | PropertyEdits.SetLayersProportional, RecordKeys.ElementsKeyIsIntended |
