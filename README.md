# Data list: a grouped, collapsible outline over an Omnis list

This project models the core of the omnis.xcomp.widget data list, an Omnis Studio
external component. The component shows the lines of an Omnis list as an outline.
Each grouping level has a group calculation. Lines with the same group text are
collected under one node, and a node can be expanded or collapsed. A line can also
be "folded" into its grouping node: when the level's parent calculation holds, the
node header stands for that line.

The model covers these operations:

- **The node tree** (`oDLNode`, module `DLNodes` over the value type of module
  `DLTree`). A `Node` class has the source's fields: touched, expanded, line number,
  sort order, value, description, children, row entries and the cached geometry.
  Each node has a ghost footprint `Repr` and a computed value `Model()`. Every
  operation is proved against that value: adding and finding children, reading and
  writing row entries, the mark (`unTouchChildren`) and sweep (`removeUntouched`)
  passes, sorting, finding by point, and `findTopForRow`.
- **The rebuild** in `doPaint` (module `DLGrouping`). Every line the filter keeps walks
  the grouping levels from the root. Each group text names a child, which is found
  by value or by label, or else created. The line ends as a row entry or is folded into
  a header. Nodes that no line touched are then swept away. `Place`, `Build` and
  `Rebuilt` are the value-level specification. The methods on the node classes are
  proved equal to them.
- **The layout pass** (`drawNode` and the height part of `drawRow`, module `DLLayout`).
  It is a running top over headers, rows and line spacing. Cached positions are reused
  and off-screen subtrees are skipped while nothing has moved. `LayNode` is the
  specification, and the imperative `DrawNode` chain is proved equal to it.
- **Scrolling** after the layout (module `DLScroll`): the vertical and horizontal
  clamps and the auto-scroll to the current line.
- **The hit test** (`doHitTest`, module `DLColumns` for the column splitters) and the
  mouse and keyboard handlers. Their selection rules are the functions of module
  `DLSelection`.
- **The property setters and getters** (module `DLConfig`) and `checkColumns`. The
  getters and setters are proved to be inverses where the source allows it.

The host is represented by parameters:

- The Omnis calculation engine is an `Engine` value. It says whether a calculation
  compiles, what a group text evaluates to for a line, and whether a parent or filter
  calculation holds.
- Text measurement is a `Measure` value.
- The client area is a `Rect`.
- The Omnis list is a `RowList` object holding the selected flags and the current line.

Thirteen of the 32 members declared in `Src/oDLNode.h` have no body in
`Src/oDLNode.cpp`: the three-argument constructor, `value`, `sortOrder`, `setLineNo`,
`setSortOrder`, `aboveTreeIcon`, `order`, `sortChildren`, `findChildByValue`,
`findChildByPoint`, `findRowAtPoint`, `findTopForRow` and `hasRow`. Their
behaviour is taken from their declarations and comments in `Src/oDLNode.h` and from how
`Src/oDataList.cpp` uses them. oDataList.h is not part of this model. Its constants are
inferred from the uses in the `.cpp` file:

- the delimiter is taken to be a newline;
- there are 256 vertical-extend flags;
- the horizontal and vertical scroll slack is 32 pixels.

The constructor `oDLNode(description, lineNo)` in `Src/oDLNode.cpp:22` differs from the
`oDLNode(value, description, lineNo)` declared in `Src/oDLNode.h:51`. `doPaint` calls the
declared one, with a value, so `DLNodes.Node.constructor` also takes a value. In the same
way `findChildByDescription` is declared with a second parameter `pNoValue` in
`Src/oDLNode.h:74`, but the body in `Src/oDLNode.cpp:93-102` has no such parameter and compares
descriptions only. The model follows that body.

## Model

| member | source | states |
|---|---|---|
| DLNodes.Node.Root | Src/oDLNode.cpp:13-20 | the root is valid and owns only itself; it is touched, expanded, has no line, no children, no rows and zero geometry |
| DLNodes.Node.constructor | Src/oDLNode.h:51 | a new grouping node carries the given value, label and line and is touched and expanded, with no children or rows |
| DLNodes.Node.SetTouched | Src/oDLNode.h:56 | only the touched flag of the node's value changes; validity is kept |
| DLNodes.Node.SetExpanded | Src/oDLNode.h:58 | only the expanded flag of the node's value changes; validity is kept |
| DLNodes.Node.SetLineNo | Src/oDLNode.h:60 | only the line number of the node's value changes |
| DLNodes.Node.SetSortOrder | Src/oDLNode.h:62 | only the sort order of the node's value changes |
| DLNodes.Node.SetTop | Src/oDLNode.h:46 | only the cached top of the node's extent changes |
| DLNodes.Node.SetBottom | Src/oDLNode.h:47 | only the cached bottom of the node's extent changes |
| DLNodes.Node.SetTreeIcon | Src/oDLNode.h:48 | only the stored tree-icon rectangle changes |
| DLNodes.Node.AboveTreeIcon | Src/oDLNode.h:67 | true exactly when the point lies in the closed tree-icon rectangle |
| DLNodes.Node.ClearChildNodes | Src/oDLNode.cpp:74-80 | afterwards the node has no children and owns only itself; nothing else about it changes |
| DLNodes.Node.AddNode | Src/oDLNode.cpp:83-85 | a disjoint valid node becomes the last child; the footprint grows by exactly its footprint; the value gains it as the last child |
| DLNodes.Node.ChildNodeCount | Src/oDLNode.cpp:88-90 | the number of children of the node's value |
| DLNodes.Node.GetChildByIndex | Src/oDLNode.cpp:105-111 | the child at the index, valid and strictly inside the footprint; null past the end |
| DLNodes.Node.FindChildByDescription | Src/oDLNode.cpp:93-102 | the first child in index order whose label is the text; null exactly when there is none |
| DLNodes.Node.FindChildByValue | Src/oDLNode.h:73 | the first child in index order whose value is the text; null exactly when there is none |
| DLNodes.Node.AddRow | Src/oDLNode.cpp:114-116 | the entry is appended to the row entries; nothing else changes |
| DLNodes.Node.RowCount | Src/oDLNode.cpp:119-121 | the number of row entries of the node's value |
| DLNodes.Node.GetRowAtIndex | Src/oDLNode.cpp:124-136 | the entry at the index, or the empty entry with line, top and bottom 0 past the end |
| DLNodes.Node.SetRowAtIndex | Src/oDLNode.cpp:139-143 | inside the range only that entry is replaced, and reading it back gives the new entry; past the end nothing changes |
| DLNodes.Node.HasRow | Src/oDLNode.h:84 | true exactly when one of the node's own row entries (not its children's) has the line |
| DLNodes.Node.FindRowAtPoint | Src/oDLNode.h:82 | a non-zero answer is the line of an entry whose extent holds the point vertically; 0 means no entry with a line holds it |
| DLNodes.Node.FindChildByPoint | Src/oDLNode.h:75 | a node found is a valid descendant whose extent holds the point; null exactly when no child's extent holds it |
| DLNodes.Node.FindTopForRow | Src/oDLNode.h:83 | the answer is FindTop of the node's value: the header when it is the line, else its own entries, else the children depth first, collapsed ones included, else -1; this search order is the model's reading of the declaration |
| DLNodes.Node.UnTouchChildren | Src/oDLNode.cpp:146-154 | the value becomes UnTouchBelow of the old value; structure and footprint are kept |
| DLNodes.Node.UnTouch | Src/oDLNode.cpp:149-151 | one turn of the mark loop: the child is untouched and marked below |
| DLNodes.Node.RemoveUntouched | Src/oDLNode.cpp:157-170 | the children become exactly the touched ones, in order; the value becomes Prune of the old value; the footprint is kept |
| DLNodes.Node.RemoveEach | Src/oDLNode.cpp:160-169 | the sweep loop keeps exactly the touched children in order, each swept in turn |
| DLNodes.Node.SortChildren | Src/oDLNode.h:87 | the children are a permutation of the old ones, their values too; no child sorts before an earlier sibling; nothing else changes |
| DLNodes.InsertionSorted | Src/oDLNode.h:86-87 | the result is a rearrangement of the input, ordered by sort order, with the values following their nodes |
| DLNodes.Node.PlaceRow | Src/oDataList.cpp:450-503 | the value becomes Place of the old value for the line and its levels; the old child objects stay in their places, the footprint only grows, and only by new nodes |
| DLNodes.Node.PlaceGrouped | Src/oDataList.cpp:458-491 | a level with a group text: the node's value becomes Place of the old one, and the old child objects stay in their places |
| DLNodes.Node.FindByKey | Src/oDataList.cpp:462-470 | the child looked up by value when the group text names one, by label otherwise; the first with that key, or null exactly when there is none |
| DLNodes.Node.AddGroup | Src/oDataList.cpp:472-476 | a new child with the group's value and label is appended after the old child objects, and the line enters it |
| DLNodes.Node.EnterRow | Src/oDataList.cpp:477-488 | the node is touched again; it then becomes the line itself when the parent calculation holds, or the walk goes on below it; its old child objects stay in their places |
| DLNodes.Node.EnterAt | Src/oDataList.cpp:466-477 | only the child at the index changes, to Enter of its old value; the child objects stay the same |
| DLNodes.Node.ExtentsMatch | Src/oDLNode.h:46-47 | the heap predicate on the stored extents of the node objects holds exactly when the node's value has non-negative extents |
| DLTree.UnTouchBelowMeaning | Src/oDLNode.cpp:146-154 | after marking, the node keeps its own flag, nothing below it is touched, no row entry is left, and every node keeps its place, keys, flags and geometry |
| DLTree.PruneKeepsTouchedInOrder | Src/oDLNode.cpp:157-170 | sweeping keeps exactly the touched children, in their original relative order, each swept, and nothing else about the node changes |
| DLTree.PruneAllTouched | Src/oDLNode.cpp:157-170 | after the sweep every node that can be reached is touched |
| DLTree.PruneOfLive | Src/oDLNode.cpp:157-170 | sweeping a tree in which everything is touched changes nothing |
| DLTree.MarkThenSweepEmpties | Src/oDLNode.cpp:146-170 | marking and then sweeping with nothing touched in between removes every child and every row entry |
| DLTree.UnTouchBelow | Src/oDLNode.cpp:146-154 | definition of the mark on values; UnTouchBelowMeaning states its meaning |
| DLTree.Prune | Src/oDLNode.cpp:157-170 | definition of the sweep on values; PruneKeepsTouchedInOrder, PruneAllTouched and PruneOfLive state its meaning |
| DLTree.KeepAppend | Src/oDLNode.cpp:157-170 | filtering a concatenation filters each part with its own flags |
| DLTree.KeepFrom | Src/oDLNode.cpp:157-170 | every node the sweep keeps was already a child |
| DLTree.FirstWithKeyAt | Src/oDLNode.cpp:93-102 | a node with the key and none before it is the first with the key |
| DLTree.KeepFirstWithKey | Src/oDLNode.cpp:157-170 | when the first node with a key is kept, it is still the first with that key after the filter |
| DLTree.UnTouchBelowExtents | Src/oDLNode.cpp:146-154 | the mark never makes a stored extent negative |
| DLTree.PruneFirstExtents | Src/oDLNode.cpp:157-170 | every child the sweep loop keeps so far has non-negative extents |
| DLTree.PruneExtents | Src/oDLNode.cpp:157-170 | the sweep never makes a stored extent negative |
| DLTree.ExtentsTops | Src/oDLNode.h:46-47 | non-negative extents give non-negative tops everywhere in the subtree |
| DLTree.FirstWithKey | Src/oDLNode.cpp:93-102 | the index of the first node with the key, with no earlier one having it; -1 exactly when no node has it |
| DLTree.FirstRow | Src/oDLNode.h:83-84 | the index of the first row entry with the line; -1 exactly when there is none |
| DLTree.FindTop | Src/oDLNode.h:83 | definition of findTopForRow on values; FindTopSound, FindTopComplete, SentinelMeansAbsent and FindTopWithin state its meaning |
| DLTree.FindTopSound | Src/oDLNode.h:83 | an answer other than -1 comes from a header or row entry that shows the line |
| DLTree.FindTopComplete | Src/oDLNode.h:83 | once the stored tops are non-negative, every line the subtree shows is found at a non-negative top |
| DLTree.SentinelMeansAbsent | Src/oDataList.cpp:1199-1208 | once the stored tops are non-negative, -1 means exactly that the line is not in the outline |
| DLTree.SwapKeepsMultiset | Src/oDLNode.h:87 | exchanging two children keeps the multiset of children |
| DLGrouping.IndexOf | Src/oDataList.cpp:462-470 | the first position of the character, with none earlier; -1 exactly when it is absent |
| DLGrouping.ParseGroup | Src/oDataList.cpp:462-470 | with a '\|' the text splits at the first one into a value without '\|' and a label, and is looked up by value; without one the whole text is the label and the lookup is by label |
| DLGrouping.ParseJoin | Src/oDataList.cpp:462-470 | composing a value without '\|' and a label and splitting again gives both back |
| DLGrouping.GroupKeyed | Src/oDataList.cpp:462-470 | a parsed group is keyed by its value or by its label |
| DLGrouping.PlaceFound | Src/oDataList.cpp:466-477 | when a child has the group's key, the first such child is entered in place |
| DLGrouping.PlaceNew | Src/oDataList.cpp:472-476 | when no child has the key, a fresh child with the group's value and label is appended and entered |
| DLGrouping.PlaceOwn | Src/oDataList.cpp:450-503 | placing a line changes only the children and row entries of the node it starts from |
| DLGrouping.EnterKeepsKey | Src/oDataList.cpp:477-488 | entering a child leaves it touched and keeps its value, label, expanded flag, sort order, extent and tree icon |
| DLGrouping.PlaceReuses | Src/oDataList.cpp:466-477 | an existing child is reused: no child is added, it stays first with its key, it is touched and keeps its value, label, expanded flag, sort order, extent and tree icon, and every other child is unchanged |
| DLGrouping.PlaceAdds | Src/oDataList.cpp:472-477 | exactly one child is appended; it carries the key, is the first with it and is touched; earlier children are unchanged |
| DLGrouping.PlaceCount | Src/oDataList.cpp:479-503 | a line that is not folded into a header adds exactly one row entry; a folded line adds none |
| DLGrouping.EnterCount | Src/oDataList.cpp:479-503 | entering a child adds one row entry unless the line is folded there or further down |
| DLGrouping.PlaceShows | Src/oDataList.cpp:479-503 | after placing, the outline shows the line, as a row entry when it was not folded |
| DLGrouping.EnterShows | Src/oDataList.cpp:479-503 | after entering, the child's subtree shows the line |
| DLGrouping.PlaceKeepsRows | Src/oDataList.cpp:450-503 | placing a line never removes a row entry that was already there |
| DLGrouping.PlaceSorted | Src/oDataList.cpp:432-505 | lines placed in increasing order keep every node's row entries in increasing line order |
| DLGrouping.EnterSorted | Src/oDataList.cpp:432-505 | the same for the subtree of an entered child |
| DLGrouping.Place | Src/oDataList.cpp:450-503 | definition of placing one line on values; PlaceFound, PlaceNew, PlaceReuses, PlaceAdds, PlaceCount, PlaceShows and PlaceSorted state its meaning |
| DLGrouping.Enter | Src/oDataList.cpp:477-488 | definition of entering a child on values; EnterKeepsKey, EnterCount, EnterShows and EnterSorted state its meaning |
| DLGrouping.PlaceGrows | Src/oDataList.cpp:450-503 | placing a line keeps every child of the start node in its place and state, and touched if it was |
| DLGrouping.PlaceExtents | Src/oDataList.cpp:472-503 | new children and row entries start at a zero extent, so placing never makes a stored extent negative |
| DLGrouping.EnterExtents | Src/oDataList.cpp:477-488 | the same for the entered child |
| DLGrouping.Active | Src/oDataList.cpp:415-429 | the levels taking part are no more than the configured ones |
| DLGrouping.ActiveMeaning | Src/oDataList.cpp:415-429 | every level taking part has a group calculation that compiles, and so does its parent calculation if it has one; when every group calculation compiles, all levels take part, in order |
| DLGrouping.Placed | Src/oDataList.cpp:432-505 | the number of lines that become row entries is at most the number of lines |
| DLGrouping.BuildSorted | Src/oDataList.cpp:432-505 | after the line loop every node's row entries are in increasing line order |
| DLGrouping.BuildCount | Src/oDataList.cpp:432-505 | the loop adds one row entry per kept, unfolded line, and no other |
| DLGrouping.BuildShows | Src/oDataList.cpp:438-503 | every line the filter keeps that is not folded is found among the row entries afterwards |
| DLGrouping.Build | Src/oDataList.cpp:432-505 | definition of the line loop on values; BuildSorted, BuildCount, BuildShows and BuildGrows state its meaning |
| DLGrouping.BuildStep | Src/oDataList.cpp:432-505 | one more line keeps every child the earlier lines left, in its place and state |
| DLGrouping.BuildGrows | Src/oDataList.cpp:432-505 | later lines keep every child that earlier lines left, in its place and state, and touched if it was |
| DLGrouping.BuildExtents | Src/oDataList.cpp:432-505 | the line loop never makes a stored extent negative |
| DLGrouping.SameStatesFirst | Src/oDataList.cpp:462-470 | nodes kept in place with their keys leave the first node with a key first |
| DLGrouping.PruneKeepsFirst | Src/oDataList.cpp:541 | the sweep keeps the first touched child with a key, in its state, as the first child with that key |
| DLGrouping.LineKeepsNode | Src/oDataList.cpp:432-505 | when a kept line names the key of an existing child at its first level, after placing it that child is still first with its key, touched and in its old state |
| DLGrouping.BuildKeepsNode | Src/oDataList.cpp:432-505 | the same after all lines up to n are placed |
| DLGrouping.UnTouchBelowStates | Src/oDataList.cpp:400 | the mark keeps every child in its place and state |
| DLGrouping.RebuiltMeaning | Src/oDataList.cpp:396-555 | after a rebuild every node below the root is touched, and every node holds its row entries in increasing line order |
| DLGrouping.RebuiltEmpty | Src/oDataList.cpp:545-552 | with no lines the root keeps its own fields and loses every child and row entry |
| DLGrouping.Rebuilt | Src/oDataList.cpp:396-555 | definition of the rebuild on values; RebuiltMeaning, RebuiltEmpty, RebuiltKeepsNode and RebuiltExtents state its meaning |
| DLGrouping.RebuiltKeepsNode | Src/oDataList.cpp:396-555 | when a kept line names at its first level the key of a child the outline had, after the rebuild the first child with that key is touched and keeps its value, label, expanded flag, sort order, extent and tree icon |
| DLGrouping.RebuiltExtents | Src/oDataList.cpp:396-555 | a rebuild never makes a stored extent negative |
| DLLayout.TallestIsMaximum | Src/oDataList.cpp:257-306 | the height loop computes the maximum of the font height and the heights of the extended columns: it is at least each of them and equal to one of them |
| DLLayout.RowHeightMeaning | Src/oDataList.cpp:246-311 | a row never exceeds the maximum row height; unless capped it is not below the font height or any extended column, and it equals the cap, the font height or one extended column |
| DLLayout.UnextendedIgnored | Src/oDataList.cpp:301-305 | columns without an extend flag, including every column past the 256th, never change a row's height |
| DLLayout.RowHeight | Src/oDataList.cpp:246-311 | definition of a row's height; RowHeightMeaning and UnextendedIgnored state its meaning |
| DLLayout.HeaderIndentDiffers | Src/oDataList.cpp:139 | as written, a header line at indent 20 without icon is drawn at 16, not 20 |
| DLLayout.HeaderWidthDiffers | Src/oDataList.cpp:145 | as written, a label at indent 0 with an icon is measured at width 20, not 9976 |
| DLLayout.HeaderAligned | Src/oDataList.cpp:130-185 | corrected: a header and the node's own rows share one indent, and a deeper label is measured narrower by exactly that indent |
| DLLayout.HeadHeight | Src/oDataList.cpp:130-185 | a header's height is never negative when the settings and measurements are not negative |
| DLLayout.HeaderHeight | Src/oDataList.cpp:130-185 | definition of a header's height, with the corrected indent and width; HeadHeight states it is not negative |
| DLLayout.Head | Src/oDataList.cpp:130-185 | definition of a header's layout, with the corrected indent and width; HeaderAligned and HeadHeight state its meaning |
| DLLayout.LayNode | Src/oDataList.cpp:115-243 | definition of drawNode's pass on values; LayShape, LayStacked, LayFlag, Relayout, LayExtents and LaidFindTopWithin state its meaning |
| DLLayout.LayRow | Src/oDataList.cpp:246-367 | definition of one row's layout; LayRowsStacked and RelayoutRows state its meaning |
| DLLayout.LayKids | Src/oDataList.cpp:187-195 | the child loop lays out exactly as many children as it is asked to |
| DLLayout.LayRows | Src/oDataList.cpp:198-228 | the row loop lays out exactly as many rows as it is asked to |
| DLLayout.LayShape | Src/oDataList.cpp:115-243 | the layout changes geometry only: flags, keys, lines, children and row entries stay as they were |
| DLLayout.LayKidsShape | Src/oDataList.cpp:187-195 | each laid-out child has the shape of the child it came from |
| DLLayout.LayRowsShape | Src/oDataList.cpp:198-228 | each laid-out row keeps its line |
| DLLayout.LayStacked | Src/oDataList.cpp:115-243 | with the update flag on, the whole subtree is positioned: the node starts at the running top and ends at the returned bottom; children come one after the other, then rows, all inside the node; the flag stays on |
| DLLayout.LayKidsStacked | Src/oDataList.cpp:187-195 | with the flag on, the children follow one another from the running top |
| DLLayout.LayRowsStacked | Src/oDataList.cpp:198-228 | with the flag on, the rows follow one another from the running top |
| DLLayout.LayFlag | Src/oDataList.cpp:119-122 | once the update flag is on, no part of the pass turns it off |
| DLLayout.Relayout | Src/oDataList.cpp:119-128 | positions are reusable: laying out again from the same top with the flag off finds every top matching, never turns the flag on, gives the same bottom and changes nothing |
| DLLayout.RelayoutKids | Src/oDataList.cpp:187-195 | reusing positions, the laid-out children come back unchanged |
| DLLayout.RelayoutRows | Src/oDataList.cpp:198-228 | reusing positions, the laid-out rows come back unchanged |
| DLLayout.LayExtents | Src/oDataList.cpp:115-243 | from a non-negative top, with non-negative settings, the layout keeps every stored extent non-negative and ends at a non-negative bottom |
| DLLayout.LayKidsExtents | Src/oDataList.cpp:187-195 | the same for the child loop |
| DLLayout.LayRowsExtents | Src/oDataList.cpp:198-228 | the same for the row loop |
| DLLayout.FindTopWithin | Src/oDLNode.h:83 | in a stacked, fully expanded subtree a line found has its top within the node's extent |
| DLLayout.FindTopFromWithin | Src/oDLNode.h:83 | the same for the search over the children from index k |
| DLLayout.LaidFindTopWithin | Src/oDataList.cpp:115-243 | after a full layout of a fully expanded subtree, a line found has its top between the starting top and the bottom reached |
| DLLayout.SameShapeExpanded | Src/oDataList.cpp:115-243 | trees of the same shape are expanded in the same places |
| DLColumns.EdgeMonotone | Src/oDataList.cpp:104-112 | with non-negative widths the column edges move right from column to column |
| DLColumns.SplitterFromMeaning | Src/oDataList.cpp:1292-1307 | the scan finds the first divider within a pixel of the mouse at or after its start, and -1 exactly when there is none |
| DLColumns.SplitterAtMeaning | Src/oDataList.cpp:1292-1307 | the splitter is the first scanned column whose divider is within a pixel, and -1 exactly when there is none |
| DLScroll.PageSize | Src/oDataList.cpp:562-577 | half the client extent, at least one pixel |
| DLScroll.MaxScroll | Src/oDataList.cpp:562-577 | the scroll range is the content end plus the slack, never negative |
| DLScroll.ClampMeaning | Src/oDataList.cpp:562-577 | the clamp never leaves an offset past the range less one page, leaves an offset within it alone, and never makes a non-negative offset negative |
| DLScroll.ClampIdempotent | Src/oDataList.cpp:562-577 | clamping twice is clamping once |
| DLScroll.AutoScrollMeaning | Src/oDataList.cpp:587-618 | the remembered top is the current line's top (0 when there is none); the offset changes only when that top moved and is out of view, and then stays within the limit |
| DLScroll.AutoScrollIdempotent | Src/oDataList.cpp:587-618 | running the step again right away changes nothing |
| DLScroll.AutoScrollShowsLine | Src/oDataList.cpp:600-612 | a centring scroll that the limit does not cut short leaves the line in view when the window is at least 64 pixels high |
| DLScroll.ClampOffset | Src/oDataList.cpp:562-577 | definition of the clamp; ClampMeaning and ClampIdempotent state its meaning |
| DLScroll.AutoScroll | Src/oDataList.cpp:587-618 | definition of the auto-scroll step; AutoScrollMeaning, AutoScrollIdempotent and AutoScrollShowsLine state its meaning |
| Geometry.Half | Src/oDataList.cpp:599 | C division by two: truncated toward zero, for negative values too |
| Geometry.Clamp | Src/oDataList.cpp:779-791 | the value is kept within the bounds |
| DLSelection.RowList.SelectRow | Src/oDataList.cpp:1477-1490 | the flag of a line in the list is set and no other changes; a line outside the list changes nothing |
| DLSelection.RowList.SetCurrent | Src/oDataList.cpp:1489-1490 | the current line becomes the given one |
| DLSelection.Marked | Src/oDataList.cpp:1471-1475 | exactly the flag of the line changes, to the given value |
| DLSelection.RowClickedMeaning | Src/oDataList.cpp:1445-1501 | a plain click leaves only the clicked line selected; a control click flips that line alone; a shift click gives the block from the current line to the clicked one the current line's flag and leaves every other line alone |
| DLSelection.PlainClickIdempotent | Src/oDataList.cpp:1477-1490 | clicking the same line again changes nothing |
| DLSelection.ToggleTwice | Src/oDataList.cpp:1471-1475 | two control clicks on a line restore the flags |
| DLSelection.RightClickAfterClick | Src/oDataList.cpp:1557-1573 | a right click on the line just clicked keeps the selection |
| DLSelection.RightClickIdempotent | Src/oDataList.cpp:1557-1573 | a second right click on the same line changes nothing |
| DLSelection.ExtendedMeaning | Src/oDataList.cpp:1452-1469 | a shift click on the current line changes nothing; lines off the way keep their flags; the whole way takes the current line's flag |
| DLSelection.ExtendedStep | Src/oDataList.cpp:1452-1469 | one step of the shift-click walk marks the line reached |
| DLConfig.CollapseCRLF | Src/oDataList.cpp:709 | never longer than the text; a text without carriage returns is unchanged |
| DLConfig.Normalized | Src/oDataList.cpp:709-710 | no carriage return is left, and a text without one is unchanged |
| DLConfig.SegmentsRoundTrip | Src/oDataList.cpp:704-732 | a table of plain calculations survives the getter's join and the setter's normalisation and cut |
| DLConfig.JoinedOfSegments | Src/oDataList.cpp:704-732 | cutting a text at its delimiters and joining again gives the text back |
| DLConfig.ColumnCalcs | Src/oDataList.cpp:704-732 | at least one calculation: the text after the last delimiter always counts |
| DLConfig.ColumnCalcsRoundTrip | Src/oDataList.cpp:973-988 | reading back what the getter wrote gives the first count calculations, a missing one as empty |
| DLConfig.GroupCalcsRoundTrip | Src/oDataList.cpp:1049-1064 | a level table whose last calculation is not empty survives a write and a read; parents are dropped |
| DLConfig.WithParents | Src/oDataList.cpp:908-958 | the levels and their group calculations are kept; only parent calculations change |
| DLConfig.ParentsFromStep | Src/oDataList.cpp:908-958 | each calculation read sets at most the parent of the next level, and only when it is not empty |
| DLConfig.ParentCalcsRoundTrip | Src/oDataList.cpp:1080-1096 | the parent calculations survive a write and a read unless one of them is empty |
| DLConfig.Widths | Src/oDataList.cpp:733-757 | at least one width, and none negative |
| DLConfig.Decimal | Src/oDataList.cpp:989-1004 | at least one digit, and only digits |
| DLConfig.ShiftedDecimal | Src/oDataList.cpp:739-749 | the width parser reads the decimal digits of n as n |
| DLConfig.WidthsRoundTrip | Src/oDataList.cpp:989-1004 | reading back what the width getter wrote gives the first count widths, a missing one as 100 |
| DLConfig.Aligns | Src/oDataList.cpp:758-778 | the first column is always left aligned |
| DLConfig.AlignLetter | Src/oDataList.cpp:1010-1019 | the getter's letter selects the same justification again |
| DLConfig.AlignsGetterOverruns | Src/oDataList.cpp:1008 | as written, two widths and one justification make the getter read past the justification table |
| DLConfig.AlignsGettersAgree | Src/oDataList.cpp:1005-1026 | wherever the written getter stays in bounds and the table does not outrun the widths, both getters agree |
| DLConfig.AlignsRoundTrip | Src/oDataList.cpp:1005-1026 | corrected: reading back what the getter wrote gives the table, completed with left justification |
| DLConfig.AlignsText | Src/oDataList.cpp:1005-1026 | one letter per column, as many as the count; AlignsRoundTrip reads it back |
| DLConfig.ExtendGetterOverruns | Src/oDataList.cpp:1036-1037 | as written, a 257th column needs a flag the 256-entry table does not have |
| DLConfig.ExtendGettersAgree | Src/oDataList.cpp:1033-1045 | up to 256 columns both getters agree |
| DLConfig.ExtendRoundTrip | Src/oDataList.cpp:1033-1045 | corrected: reading the getter's text back restores the flags of the first count columns, and the rest become set |
| DLConfig.ExtendText | Src/oDataList.cpp:1033-1045 | one letter per column, as many as the count; ExtendRoundTrip reads it back |
| DLConfig.CheckedWidthsMeaning | Src/oDataList.cpp:79-101 | after checkColumns every column has a width of at least 10; a missing one gets 100; other widths are kept |
| DLConfig.CheckedIdempotent | Src/oDataList.cpp:79-101 | a second checkColumns changes nothing and asks for no new layout |
| DLConfig.CheckedNoChange | Src/oDataList.cpp:79-101 | a table that already covers every column with valid widths is left alone |
| DLConfig.CheckedWidths | Src/oDataList.cpp:79-101 | definition of the widths after checkColumns; CheckedWidthsMeaning states its meaning |
| DLConfig.Completed | Src/oDataList.cpp:79-101 | definition of a table completed to the column count; CheckedColumns relates the loop to it |
| DLConfig.ColumnsNeedUpdate | Src/oDataList.cpp:79-101 | whether checkColumns must add or raise an entry; CheckedColumns and CheckedIdempotent state its meaning |
| DataListComponent.ParseColumnCalcs | Src/oDataList.cpp:704-732 | the setter's loop computes ColumnCalcs: every delimiter ends a calculation and the last text always counts |
| DataListComponent.ParseWidths | Src/oDataList.cpp:733-757 | the setter's loop computes Widths: a comma pushes, a digit shifts in, anything else is skipped |
| DataListComponent.ParseAligns | Src/oDataList.cpp:758-778 | the setter's loop computes Aligns |
| DataListComponent.ParseGroupCalcs | Src/oDataList.cpp:825-863 | the setter's loop computes GroupCalcs: an empty last calculation adds no level |
| DataListComponent.ParseParentCalcs | Src/oDataList.cpp:908-958 | the setter's loop computes WithParents on the current levels |
| DataListComponent.FindSplitter | Src/oDataList.cpp:1292-1307 | the splitter scan returns the first scanned column whose divider is within a pixel, or -1 |
| DataListComponent.ScrollStep | Src/oDataList.cpp:587-618 | the auto-scroll step computes AutoScroll |
| DataListComponent.PlaceLines | Src/oDataList.cpp:432-505 | the line loop turns the outline into Build of it over every line; the last line is left current, and with no lines the current line is kept |
| DataListComponent.PlaceLine | Src/oDataList.cpp:433-504 | one turn: the line becomes current and, when the filter keeps it, is placed |
| DataListComponent.SweptSurvivors | Src/oDataList.cpp:526-541 | when the line loop only appended children, the sweep puts the touched old child objects first, in their order |
| DataListComponent.CheckedColumns | Src/oDataList.cpp:79-101 | the loop completes and raises the widths, completes justifications and calculations, and asks for a new layout exactly when it had to add or raise |
| DataListComponent.DataList.constructor | Src/oDataList.cpp:21-35 | the defaults: one column, indent 20, line spacing 4, an empty root, a rebuild and a new layout due, no hit |
| DataListComponent.DataList.SetColumnCount | Src/oDataList.cpp:691-703 | the column count becomes the value, at least 1, and a new layout is due |
| DataListComponent.DataList.SetColumnCalcs | Src/oDataList.cpp:704-732 | the calculations become ColumnCalcs of the text, and a new layout is due |
| DataListComponent.DataList.SetColumnWidths | Src/oDataList.cpp:733-757 | the widths become Widths of the text, and a new layout is due |
| DataListComponent.DataList.SetColumnAligns | Src/oDataList.cpp:758-778 | the justifications become Aligns of the text |
| DataListComponent.DataList.SetMaxRowHeight | Src/oDataList.cpp:779-791 | the maximum row height becomes the value clamped to 14..200, and a new layout is due |
| DataListComponent.DataList.SetColumnPrefix | Src/oDataList.cpp:792-799 | the prefix becomes the text, and a new layout is due |
| DataListComponent.DataList.SetVerticalExtend | Src/oDataList.cpp:800-818 | the flags become ExtendFlags of the text, and a new layout is due |
| DataListComponent.DataList.SetGroupCalcs | Src/oDataList.cpp:825-863 | the levels become GroupCalcs of the text, and a rebuild is due |
| DataListComponent.DataList.SetTreeIndent | Src/oDataList.cpp:864-877 | the tree indent becomes the value clamped to 16..100 |
| DataListComponent.DataList.SetLineSpacing | Src/oDataList.cpp:878-891 | the line spacing becomes the value clamped to 1..100 |
| DataListComponent.DataList.SetShowSelected | Src/oDataList.cpp:892-895 | the flag is set exactly when the Omnis boolean is true |
| DataListComponent.DataList.SetFilter | Src/oDataList.cpp:896-903 | the filter becomes the text, and a rebuild is due |
| DataListComponent.DataList.SetDeselectOnNodeClick | Src/oDataList.cpp:904-907 | the flag is set exactly when the Omnis boolean is true |
| DataListComponent.DataList.SetParentCalcs | Src/oDataList.cpp:908-958 | the levels become WithParents of the old levels, and a rebuild is due |
| DataListComponent.DataList.GetColumnCalcs | Src/oDataList.cpp:973-988 | the first count calculations joined by the delimiter, a missing one as empty; ColumnCalcsRoundTrip reads it back |
| DataListComponent.DataList.GetColumnWidths | Src/oDataList.cpp:989-1004 | the first count widths in decimal joined by commas, a missing one as 100; WidthsRoundTrip reads it back |
| DataListComponent.DataList.GetColumnAligns | Src/oDataList.cpp:1005-1026 | one letter per column, a missing justification as L, with the corrected guard; AlignsRoundTrip reads it back |
| DataListComponent.DataList.GetVerticalExtend | Src/oDataList.cpp:1033-1045 | one letter per column, a column past the 256 flags as F; ExtendRoundTrip reads it back |
| DataListComponent.DataList.GetGroupCalcs | Src/oDataList.cpp:1049-1064 | the group calculations joined by the delimiter; GroupCalcsRoundTrip reads it back |
| DataListComponent.DataList.GetParentCalcs | Src/oDataList.cpp:1080-1096 | the parent calculations joined by the delimiter, a missing one as empty; ParentCalcsRoundTrip reads it back |
| DataListComponent.DataList.CheckColumns | Src/oDataList.cpp:79-101 | the tables become CheckedWidths and the completed tables; a new layout is due exactly when a width or calculation was added or a width raised; every column has a width |
| DataListComponent.DataList.DrawDividers | Src/oDataList.cpp:104-112 | the right edge of the last column, the sum of the widths |
| DataListComponent.DataList.Layout | Src/oDataList.cpp:115-367 | the settings the layout reads are the component's own: indent, spacing, cap, offset, client area, the widths in use and the extend flags |
| DataListComponent.DataList.DrawRow | Src/oDataList.cpp:246-367 | the row's bottom is its top plus RowHeight, whose meaning RowHeightMeaning gives |
| DataListComponent.DataList.DrawNode | Src/oDataList.cpp:115-243 | the node's new value, the bottom returned and the update flag handed on are exactly those of LayNode; the structure is kept |
| DataListComponent.DataList.DrawPlaced | Src/oDataList.cpp:128-242 | once the top is stored, the rest of the pass gives LayNode's result |
| DataListComponent.DataList.DrawBelow | Src/oDataList.cpp:187-242 | after the header, the node's value, bottom and flag are those of LayNode |
| DataListComponent.DataList.DrawOpen | Src/oDataList.cpp:187-228 | the children and then the rows are laid out as LayKids and LayRows say, and the bottom reached is stored |
| DataListComponent.DataList.DrawHeader | Src/oDataList.cpp:130-185 | the header's indent and height and the placed icon are those of Head |
| DataListComponent.DataList.DrawChildren | Src/oDataList.cpp:187-195 | the children's new values, the running top and the flag are those of LayKids over every child |
| DataListComponent.DataList.DrawChildAt | Src/oDataList.cpp:188-194 | one more child laid out, as LayKids for one more child says |
| DataListComponent.DataList.DrawRows | Src/oDataList.cpp:198-228 | the row entries, the running top and the flag are those of LayRows over every entry |
| DataListComponent.DataList.DrawRowAt | Src/oDataList.cpp:199-227 | only entry i changes, as LayRow says |
| DataListComponent.DataList.CompileLevels | Src/oDataList.cpp:415-429 | the levels taking part are Active of the levels |
| DataListComponent.DataList.CheckHit | Src/oDataList.cpp:526-538 | a hit over a swept node, or over a line its node no longer holds, is cleared; any other is kept |
| DataListComponent.DataList.RebuildLines | Src/oDataList.cpp:415-541 | the outline becomes Prune of Build over every line; the old child objects that survive the sweep come first among the new children, in their order; the hit is kept or cleared, and a hit that is not on a node or row is kept; the last line is left current, and with no lines the current line is kept |
| DataListComponent.DataList.PlaceAll | Src/oDataList.cpp:432-505 | the outline becomes Build over every line, the old child objects stay in their places, the last line is left current, and with no lines the current line is kept |
| DataListComponent.DataList.Sweep | Src/oDataList.cpp:526-541 | the stale hit is cleared exactly; the outline becomes Prune of it, and the child objects become exactly the touched old ones, in order |
| DataListComponent.DataList.RebuildEmpty | Src/oDataList.cpp:545-552 | the root loses every child; a hit over a node or row is cleared, any other kept |
| DataListComponent.DataList.MarkAll | Src/oDataList.cpp:400 | the outline becomes UnTouchBelow of it; the child objects and the footprint are kept |
| DataListComponent.DataList.Rebuild | Src/oDataList.cpp:396-555 | the outline becomes Rebuilt from the list; the old child objects that survive come first among the new children, in their order, and none is left without lines; a new layout is due, the rebuild flag is cleared, the current line is restored; a hit that is not on a node or row is kept |
| DataListComponent.DataList.RebuildMarked | Src/oDataList.cpp:404-552 | after the mark, the outline becomes Rebuilt, the surviving old child objects come first in their order, and the current line is restored; a hit that is not on a node or row is kept |
| DataListComponent.DataList.RebuildIfMarked | Src/oDataList.cpp:396 | the rebuild runs only when one is due; the outline is then Rebuilt, else unchanged with every node and the hit as they were; the hit is kept or cleared, and kept when it is not on a node or row; the flag ends cleared |
| DataListComponent.DataList.ClampVertical | Src/oDataList.cpp:562-577 | the vertical offset is clamped; a redraw is asked exactly when it changed |
| DataListComponent.DataList.ScrollToCurrent | Src/oDataList.cpp:587-618 | the offset and the remembered top are those of AutoScroll for the current line's top; a redraw is asked exactly when the offset changed |
| DataListComponent.DataList.ScrollHorizontal | Src/oDataList.cpp:622-637 | the horizontal offset is clamped to the columns' extent; a redraw is asked exactly when it changed |
| DataListComponent.DataList.LayOutList | Src/oDataList.cpp:558-618 | the outline is LayNode of the root from top 0; then the clamp and the auto-scroll act on its bottom; positions are then up to date |
| DataListComponent.DataList.LayOutRoot | Src/oDataList.cpp:558-560 | the outline, the bottom reached and the update flag are those of LayNode of the root from top 0 |
| DataListComponent.DataList.ScrollAfterLayout | Src/oDataList.cpp:562-618 | the clamp then the auto-scroll, on the bottom reached; positions are up to date |
| DataListComponent.DataList.PaintList | Src/oDataList.cpp:396-618 | the outline is LayNode of the rebuilt (or unchanged) outline, with a full layout when a rebuild happened, followed by the clamp and the auto-scroll; the hit is kept or cleared, and kept when no rebuild was due or it is not on a node or row |
| DataListComponent.DataList.Paint | Src/oDataList.cpp:371-643 | after a paint the widths are CheckedWidths of the old ones and the justifications and calculations are completed to the column count, so every column has a width of at least 10; a shown list has no rebuild or layout due; the horizontal offset is clamped; the current line is kept; the hit is kept or cleared, and kept when no rebuild was due or it is not on a node or row; in design mode or without a list the hit, the remembered top, the vertical offset, the outline and every node are unchanged |
| DataListComponent.DataList.PaintShown | Src/oDataList.cpp:384-618 | in design mode or without a list nothing below the columns changes and no redraw is asked: the hit, the remembered top of the current line, the outline and every node are as they were; otherwise the hit is kept or cleared, and kept when no rebuild was due or it is not on a node or row |
| DataListComponent.DataList.DoHitTest | Src/oDataList.cpp:1284-1340 | a splitter when a scanned divider is within a pixel (the first one); otherwise the node below the root that holds the point, on its icon, a row or its header; otherwise a row of the root; otherwise nothing; a row hit always names a line |
| DataListComponent.DataList.HitAt | Src/oDataList.cpp:1284-1340 | definition of doHitTest's answer on the current outline: a splitter, else a node hit, else a root row, else nothing; DoHitTest is proved to compute it |
| DataListComponent.DataList.HitBelow | Src/oDataList.cpp:1310-1339 | without a splitter: a node hit or a root row hit, as HitAt says |
| DataListComponent.DataList.MouseLDown | Src/oDataList.cpp:1362-1365 | the hit is the hit test at the point, which is remembered |
| DataListComponent.DataList.MouseLUp | Src/oDataList.cpp:1368-1370 | the hit is cleared |
| DataListComponent.DataList.MouseMoved | Src/oDataList.cpp:1373-1390 | while a splitter is held, a horizontal move resizes its column by the distance, never below 10, and a new layout is due; otherwise nothing changes |
| DataListComponent.DataList.ToggleNode | Src/oDataList.cpp:1405-1413 | only the node's expanded flag flips, and a new layout is due |
| DataListComponent.DataList.SelectAll | Src/oDataList.cpp:1615-1618 | every line gets the flag |
| DataListComponent.DataList.ExtendSelection | Src/oDataList.cpp:1452-1469 | the walk gives every line on the way the current line's flag, and nothing else changes |
| DataListComponent.DataList.RowClick | Src/oDataList.cpp:1445-1501 | the flags become RowClicked and the line becomes current |
| DataListComponent.DataList.NodeClick | Src/oDataList.cpp:1414-1444 | the flags become NodeClicked and no line is current |
| DataListComponent.DataList.ClickOnHit | Src/oDataList.cpp:1405-1501 | an icon toggles its node and no other node's expanded flag changes; a node deselects when asked to; a row updates the selection; the line clicked (0 for a node) is returned |
| DataListComponent.DataList.Click | Src/oDataList.cpp:1393-1510 | the hit is that of the hit test in the old state, then the click acts on it as ClickOnHit says; only the hit node's expanded flag can change |
| DataListComponent.DataList.DoubleClick | Src/oDataList.cpp:1513-1537 | on a node its expanded flag flips and no other node's does; elsewhere no flag changes; on a row the double-click event is reported |
| DataListComponent.DataList.DoubleClickOnHit | Src/oDataList.cpp:1516-1534 | the same, once the hit test is redone |
| DataListComponent.DataList.SelectOnly | Src/oDataList.cpp:1557-1573 | only the line stays selected; the result says whether any flag changed |
| DataListComponent.DataList.RightDown | Src/oDataList.cpp:1541-1598 | the flags become RightClicked for the line under the mouse (0 for none), which becomes current; the event is reported exactly when a flag or the current line changed |
| DataListComponent.DataList.RightClickLine | Src/oDataList.cpp:1553-1594 | the same for a given line |
| DataListComponent.DataList.KeyPressed | Src/oDataList.cpp:1605-1631 | the key is handled exactly for control-A while the selection is shown and the component holds its copy of the list; every line is then selected when the Omnis list can be fetched |
| DataListComponent.DataList.CanDragMeaning | Src/oDataList.cpp:1638-1660 | a drag starts exactly when the last hit found a line, and then a node is named |
| DataListComponent.DataList.IsVisible | Src/oDataList.cpp:1195-1218 | true exactly when the line has a top in the outline, and exactly when the outline shows it, as a header or a row entry, collapsed groups included |

## Left out

- Drawing itself is left out: text, lines, icons, the even/odd row colours, fonts and the selection highlight. Only the geometry the drawing produces is modelled.
- Text measurement and the calculation engine are host values (`Measure`, `Engine`). Compiling and evaluating Omnis calculations is not modelled.
- The host calls are left out: invalidating the window, scroll bar updates, the property inspector refresh and event sending. Where an event carries a value, the method returns that value.
- The recursive repaint `doPaint` starts when an offset changes is returned as `redraw` instead.
- The component's copy of the list (`mDataList`) and the Omnis list are one `RowList` value. Keeping the two copies in step is not modelled.
- Memory management is left out: deleting nodes and freeing calculation objects. Swept nodes stay in a node's ghost footprint as garbage.
- The design-mode branch of `doPaint` draws sample text only and is left out.
- Dragging and dropping beyond `canDrag` is left out, as are `getCursor`, `evWindowScrolled`, and the properties without logic, which Omnis stores itself.
- The 32-bit widths of `qlong` and `qdim` are not modelled. All arithmetic is on unbounded integers.
- DL_DELIMIT_CHAR is taken to be a newline, since oDataList.h is not part of this model.
- qstring `pos`/`mid` are taken to split at the first '|', with the label after it. Their exact semantics are not visible.
- qrect `height()` and `width()` are taken to be the distance between the edges (`Geometry.Height`, `Geometry.Width`). The framework class is not part of this model, so whether it adds one pixel is not visible.
- DLNodes.Node.FindRowAtPoint: the body is not in the source, so only what its declaration and call sites promise is stated, not which of several matching entries is returned.
- DLNodes.Node.FindChildByPoint: the body is not in the source, so it states that a node holding the point is found below this one, not which one when extents overlap.
- DataListComponent.DataList.Rebuild: states only that the hit is kept or cleared, and kept when it is not on a node or row; `Sweep` and `CheckHit` state the exact rule for a node or row hit.
- DataListComponent.DataList.RebuildLines: the same as `Rebuild` for the hit: kept or cleared, and kept when not on a node or row; the exact rule is in `Sweep` and `CheckHit`.
- DataListComponent.DataList.RebuildMarked: the same as `Rebuild` for the hit; the exact rule is in `Sweep` and `CheckHit`.
- DataListComponent.DataList.PaintList: for a node or row hit after a due rebuild, states only that it is kept or cleared; the exact rule is in `Sweep` and `CheckHit`.
- DataListComponent.DataList.Paint: states the column tables, the flags, the horizontal clamp and the hit as kept or cleared. The outline after the paint is stated by `PaintList`, which `Paint` calls.
- DataListComponent.DataList.Click: the redone hit test is stated for the old state (`old(HitAt(...))`), since the click may flip a node's expanded flag afterwards.
- DLNodes.Node.FindTopForRow: only the declaration is in the source (`Src/oDLNode.h:83`), which says it checks child nodes. The search order (the node's own line, then its row entries, then its children depth first) is this model's reading, and collapsed children are searched too, so a line inside a collapsed group gets the top cached at its last layout. That the answer lies within the owning node's extent is proved only for a fully expanded subtree after a full layout (`DLLayout.LaidFindTopWithin`).
- DataListComponent.DataList.DrawHeader: the header follows the corrected reading of `Src/oDataList.cpp:139` and `:145` (see Findings), not the expressions as written. So the whole layout does too: `DLLayout.Head`, `HeaderHeight`, `LayNode`, `LayStacked`, `Relayout`, `DrawNode`, `LayOutList` and `PaintList` describe the corrected program. As written, every label header is measured at the width of the tree indent, and a folded header line below the top level is drawn at the tree indent instead of its depth.
- DataListComponent.DataList.MouseMoved: requires a held splitter's column to lie inside the widths table. The source reads and writes `mColumnWidths` at that index without a check (`Src/oDataList.cpp:1377` and `:1382`). The table can shrink during a drag, when a handler of the column-resized event sent at `:1386` sets `$columnwidths`. What the array class does with an index out of range is not visible, so that case is not modelled.
- DataListComponent.DataList.RightDown: the model always has the list. The source reads `mOmnisList` and `mDataList` without a null check (`Src/oDataList.cpp:1548-1549`), so a right click with no list attached is undefined behaviour there and is not modelled.
- DataListComponent.DataList.constructor: `oDataList(void)` leaves the maximum row height and the extend flags unset, so they are parameters, and the maximum row height is taken to be non-negative. The zero scroll offsets, the empty hit record and the last mouse position are this model's starting values.
- Measured heights (`Measure.fontHeight`, `Measure.textHeight` and the same fields of `DLLayout.Style`) are natural numbers: a measured height is never negative, and the extents proofs rely on it.

## Findings

| source | as written | input that shows it | evidently intended | confidence | as-written member | corrected member |
|---|---|---|---|---|---|---|
| Src/oDataList.cpp:139 | `pIndent + needIcon ? mIndent : 0` groups as `(pIndent + needIcon) ? mIndent : 0` | a header line at indent 20 without an icon, tree indent 16: drawn at indent 16 | `pIndent + (needIcon ? mIndent : 0)`: 20 | not executed | DLLayout.HeaderIndentAsWritten, shown by DLLayout.HeaderIndentDiffers | DLLayout.HeaderIndent, proved by DLLayout.HeaderAligned |
| Src/oDataList.cpp:145 | `colwidth - pIndent - needIcon ? mIndent : 0 - 4` groups as `(colwidth - pIndent - needIcon) ? mIndent : -4` | a label at indent 0 with an icon, tree indent 20: measured at width 20 | `colwidth - pIndent - (needIcon ? mIndent : 0) - 4`: 9976 | not executed | DLLayout.HeaderWidthAsWritten, shown by DLLayout.HeaderWidthDiffers | DLLayout.HeaderWidth, proved by DLLayout.HeaderAligned |
| Src/oDataList.cpp:1008 | the justification getter guards `mColumnAligns[i]` with the number of widths | two widths, one justification, two columns: reads the second entry of a one-entry table | guard with the number of justifications | not executed | DLConfig.AlignsTextAsWritten, shown by DLConfig.AlignsGetterOverruns | DLConfig.AlignsText, proved by DLConfig.AlignsRoundTrip |
| Src/oDataList.cpp:1036-1037 | the extend getter reads `mColumnExtend[i]` for every column, from a 256-entry table | 257 columns: reads a 257th flag | write columns past the table as not extended, as drawRow treats them | not executed | DLConfig.ExtendTextAsWritten, shown by DLConfig.ExtendGetterOverruns | DLConfig.ExtendText, proved by DLConfig.ExtendRoundTrip |
