# Proofs about the algorithms in the shipped bundles

The repository ships its front end as built bundles. This project models the algorithms in them,
one or more Dafny modules per bundle module, and proves what they are for. Every bundle is one
physical line; the module keys given below, such as "81ac", say where in it the code is.

`dafny verify dfyconfig.toml` checks everything.

## What is modelled

**Edit scripts and the SVG patch** (`EditScript`, `GreedyScript`, `ArrayDiff`, `SvgPatch`; "0c12",
"dc20"). The diff is the greedy search over diagonals, with path objects that are taken over or copied
and components that are shared between paths and never altered. It is proved against the edit grid:
fronts that dominate every script of a length, in spite of the pruning at the edges; and which of the
shortest scripts it finds is a function of the two lists. The patch is the two passes over the component
list. It is right when no displayable that stays owns two elements or has got a new one. In general it
is right exactly when every one that stays had its first element in the document, since the code puts in
only a text behind a shape, and no added one comes right behind one that stays with shape and text, since
that one hands on its first element as the anchor, and what stays was in order: no repaint mends what an
earlier one has misplaced as long as those displayables stay. Two repaints that go wrong are given as methods.

**Tidy tree** (`TreeTraversal`, `TreeLevels`, `LazyShifts`, `TidyRecords`, `TidyLevels`, `TidyTree`;
"6d9a", "22da", "ca29"). Nodes of the visible tree are named in children-first order. Shifts are noted
at both ends of a move and carried out in one pass; threads continue the contours of joined forests.
Separation is a function of the two nodes, as in the code, and nothing is required of it. The main
result is that all neighbours on all levels keep it, and that families are as close as it allows: the
subtree of a last child meets those of its siblings on some level. It rests on three facts about the
data that the code keeps: the sums along threaded contours are true positions, the sibling charged for a conflict is
the one the conflicting node is under, and shifts still pending belong to subtrees that no contour
reaches.

**Sankey** (`SankeyRank`, `SankeyAlign`, `SankeyPack`, `SankeyLayout`, `SankeyDiagram`, `SankeyChart`;
"81ac"). Ranking with the cycle test, alignment, layers, the common scale, relaxation, the collision
resolver and ribbons, and the layout that runs them one after the other. The course of the rounds is part
of the result: passes that move each node towards the point about which its edges balance, and after each
a resolver that moves nodes no farther than it must. Edge values are not negative where packing and
ribbons need it.

**Treemap** (`TreemapChildren`, `TreemapTiling`, `TreemapLayout`; "9ca8"). The visibility filter with
its shrinking total, squarified rows with a step back by one child, exact tiling, and gaps.

**Linked nodes, slider, zoom history** (`LinkedNodes`, `SliderMove`, `ZoomHistory`; "50e5", "ef6a",
"6fda").

**Generator runtime** (`GeneratorTable`, `GeneratorUnwinding`, `GeneratorSteps`, `GeneratorCalls`,
`GeneratorRuns`, `GeneratorDifferences`, `GeneratorMemory`, `GeneratorRuntime`; "96cf"). The body is a
list of steps, each saying where the body is and which call into the context ends its run. The class is
proved equal, operation by operation, to functions on the context as a value, and what calls and runs of
calls come to is proved about those. The reference is unwinding through nested try statements: a stack
of finalizers in progress, each with what is pending in it, and acts of the body, which may be in try
statements nested in a finalizer. Section 27.5.3 of ECMA-262 describes what generators should do. The
runtime differs from nested statements in five places, each stated with its exact condition and shown
on a run: a break out of a finalizer that a throw was sent to, a jump through several finalizers, a jump
within a finalizer, the end of a statement nested in a finalizer that a throw was sent to, and a
finalizer reached again when its entry remembers an old completion. GeneratorUnwinding.SlipsExactly says
that there are no others.

**Chunk loading** (`ChunkLoader`; bootstrap of the application bundle). Requests, arriving chunks,
script events and deferred entries, in any order.

Coordinates are real numbers. `RealSums` holds sums over index lists and the sort by key,
`Collections` the optional value and small list notions.

## Model

| member | source | states |
|---|---|---|
| `ArrayDiff.Diff` | bin/site/static/js/chunk-0a2934a6.0a828618.js:1 | "0c12": for all lists the result is a shortest edit script among all scripts that turn the old list into the new one, and it is the one that GreedyScript.DiffScript gives for the two lists; its components are new objects, each of one kind, maximal runs, with the right indices |
| `GreedyScript.ReachesNext` | bin/site/static/js/chunk-0a2934a6.0a828618.js:1 | "0c12": choosing the last edit by the two tests of the round and following matches, with no paths or rounds, reaches on every diagonal just where the front of that round is |
| `GreedyScript.Later` | bin/site/static/js/chunk-0a2934a6.0a828618.js:1 | "0c12": an unfinished round is not the one the script comes from |
| `ArrayDiff.Search.Round` | bin/site/static/js/chunk-0a2934a6.0a828618.js:1 | "0c12": one round either ends with a script of the current length when no shorter one exists, or leaves the front of the next length complete |
| `ArrayDiff.Search.Step` | bin/site/static/js/chunk-0a2934a6.0a828618.js:1 | "0c12": one diagonal of a round keeps the round invariant: no two diagonals share a path object, done ones hold furthest paths, waiting ones those of the last round |
| `ArrayDiff.Search.EnterDiagonal` | bin/site/static/js/chunk-0a2934a6.0a828618.js:1 | "0c12": a diagonal takes over the path below, copies the one above, or falls silent, exactly when the pruning at the grid edges says so; only the path below is altered |
| `ArrayDiff.Search.BasePath` | bin/site/static/js/chunk-0a2934a6.0a828618.js:1 | "0c12": which of the two paths a diagonal is entered with, and that the other one is not altered |
| `ArrayDiff.Path.PushComponent` | bin/site/static/js/chunk-0a2934a6.0a828618.js:1 | "0c12" pushComponent: the script grows by one operation; a run is lengthened by a new object, never by altering the shared one |
| `ArrayDiff.Path.ExtractCommon` | bin/site/static/js/chunk-0a2934a6.0a828618.js:1 | "0c12" extractCommon: the path follows its diagonal to the end of the common run and keeps its cost |
| `ArrayDiff.BuildValues` | bin/site/static/js/chunk-0a2934a6.0a828618.js:1 | "0c12" buildValues: every component gets the consecutive positions of its operations |
| `ArrayDiff.TurnsBeforeIntoAfter` | bin/site/static/js/chunk-0a2934a6.0a828618.js:1 | "0c12": replaying the returned components on the old list gives the new list, when the comparator is equality |
| `ArrayDiff.ReachedNext` | bin/site/static/js/chunk-0a2934a6.0a828618.js:1 | "0c12": walking the components operation by operation is the script, and the p-th index of a component is where that operation reads the old or the new list |
| `ArrayDiff.NewPositionsCover` | bin/site/static/js/chunk-0a2934a6.0a828618.js:1 | "0c12": kept and added components together list every new position once, in order |
| `EditScript.CompleteStep` | bin/site/static/js/chunk-0a2934a6.0a828618.js:1 | "0c12": if a front dominates every script of one length, the next front dominates every script of the next length, in spite of the pruning and the cleared diagonals |
| `EditScript.CompleteEdit` | bin/site/static/js/chunk-0a2934a6.0a828618.js:1 | "0c12": the case of a script that ends in an addition or a removal |
| `EditScript.CompleteKeep` | bin/site/static/js/chunk-0a2934a6.0a828618.js:1 | "0c12": the case of a script that ends in a kept element |
| `EditScript.RightEdgeStep` | bin/site/static/js/chunk-0a2934a6.0a828618.js:1 | "0c12": a diagonal at the right edge of the grid passes its point on towards the goal, so cutting it off loses nothing |
| `EditScript.BottomEdgeStep` | bin/site/static/js/chunk-0a2934a6.0a828618.js:1 | "0c12": the same at the bottom edge |
| `EditScript.RoundInvariant` | bin/site/static/js/chunk-0a2934a6.0a828618.js:1 | "0c12": a round keeps fronts in the grid, on their parity and complete |
| `EditScript.UnfinishedMeansNoScript` | bin/site/static/js/chunk-0a2934a6.0a828618.js:1 | "0c12": a complete front that has not reached the goal means that no script has that length |
| `EditScript.RoundsBounded` | bin/site/static/js/chunk-0a2934a6.0a828618.js:1 | "0c12": the search ends within as many rounds as the lists have elements together |
| `EditScript.KeepRun` | bin/site/static/js/chunk-0a2934a6.0a828618.js:1 | "0c12": following a diagonal appends kept elements at no cost |
| `EditScript.ReplayIsAfter` | bin/site/static/js/chunk-0a2934a6.0a828618.js:1 | "0c12": any playable script rebuilds the new list up to the point it has reached |
| `SvgPatch.Painter.PaintList` | bin/site/static/js/chunk-0a2934a6.0a828618.js:1 | "dc20" _paintList: the new visible list has the displayables that are not invisible, in order; from children in any order, after both passes they are the elements of the new visible list, in order and without repetition, if and only if those that stay were in the order of their displayables, every kept displayable had its first element in the document and no added one comes right behind a kept one that has a shape and a text; what stays keeps its order in any case, nothing else gets in, and the next repaint can start from there; which are kept is DiffScript of the two lists |
| `SvgPatch.Repaint.WantedMeans` | bin/site/static/js/chunk-0a2934a6.0a828618.js:1 | "dc20": in the wanted list each displayable has its elements in a row, one displayable right behind the other |
| `SvgPatch.Repaint.SameListAgain` | bin/site/static/js/chunk-0a2934a6.0a828618.js:1 | "dc20": a repaint of an unchanged list leaves the wanted children if and only if they were in order before and none lacked its first element: it mends nothing that an earlier one misplaced |
| `SvgPatch.Repaint.SurvivorsWanted` | bin/site/static/js/chunk-0a2934a6.0a828618.js:1 | "dc20": for any script, the elements that stay are wanted, and in the wanted list they are in the order of the old displayables |
| `SvgPatch.Repaint.WantedIsRepaintable` | bin/site/static/js/chunk-0a2934a6.0a828618.js:1 | "dc20": children among the wanted elements show of each new displayable what the next repaint expects, in whatever order they are |
| `SvgPatch.PaintBehindShapeAndText` | bin/site/static/js/chunk-0a2934a6.0a828618.js:1 | "dc20": a repaint that goes wrong: a displayable painted behind one with shape and text lands between the two |
| `SvgPatch.PaintTextCreatedLater` | bin/site/static/js/chunk-0a2934a6.0a828618.js:1 | "dc20": a repaint that goes wrong: a text that is created while its displayable stays in the list is not put into the document |
| `SvgPatch.Repaint.MissingAtStart` | bin/site/static/js/chunk-0a2934a6.0a828618.js:1 | "dc20": if a kept displayable lacks its first element, no removal or placement before has put it in |
| `SvgPatch.Repaint.StaysMissing` | bin/site/static/js/chunk-0a2934a6.0a828618.js:1 | "dc20": and none after does |
| `SvgPatch.PlacedRight` | bin/site/static/js/chunk-0a2934a6.0a828618.js:1 | "dc20": the insert-after-previous pass places a list of items right if and only if it is orderly in that sense |
| `SvgPatch.SingleElementsOrderly` | bin/site/static/js/chunk-0a2934a6.0a828618.js:1 | "dc20": if kept displayables own at most one element each, all items are placed right |
| `SvgPatch.AddedBehindShapeAndText` | bin/site/static/js/chunk-0a2934a6.0a828618.js:1 | "dc20": the smallest list for which it goes wrong: the added element lands between shape and text |
| `SvgPatch.PendingTextMisplaced` | bin/site/static/js/chunk-0a2934a6.0a828618.js:1 | "dc20": whatever is added right behind a kept shape and text is misplaced |
| `SvgPatch.Painter.RemovalPass` | bin/site/static/js/chunk-0a2934a6.0a828618.js:1 | "dc20": the first pass takes out exactly the elements of removed displayables |
| `SvgPatch.Painter.PlacementPass` | bin/site/static/js/chunk-0a2934a6.0a828618.js:1 | "dc20": the second pass leaves what placing the items one by one gives, or, if a kept displayable lacks its first element, a list that is not the wanted one; in any case it only puts in wanted elements and moves none |
| `SvgPatch.Painter.PlaceAdded` | bin/site/static/js/chunk-0a2934a6.0a828618.js:1 | "dc20": an added displayable puts its elements behind the previous one and becomes the anchor with its last |
| `SvgPatch.Painter.TouchKept` | bin/site/static/js/chunk-0a2934a6.0a828618.js:1 | "dc20": a kept displayable keeps its place, adds a text that was not there, never its first element, and becomes the anchor with that one |
| `SvgPatch.Repaint.RemovalLeavesSurvivors` | bin/site/static/js/chunk-0a2934a6.0a828618.js:1 | "dc20": after all removals, even of elements that are placed again later, the children are those of the kept displayables in old order |
| `SvgPatch.Repaint.FlatIsWanted` | bin/site/static/js/chunk-0a2934a6.0a828618.js:1 | "dc20": the items placed along a script are the elements of the new visible list |
| `TidyTree.Layout.Run` | bin/site/static/js/chunk-0a2934a6.0a828618.js:1 | "22da", "ca29": for every tree and every separation function, on every level each node keeps its separation from its right neighbour, whether they are siblings or far apart in the tree; the subtree of a last child is just as far from those of its siblings as that asks for, on some level; every visible inner node is exactly midway between its first and last child, and the top node is at 0 |
| `TidyTree.Layout.FirstWalk` | bin/site/static/js/chunk-0a2934a6.0a828618.js:1 | "22da" firstWalk: as nodes are walked, children stay centred, all levels of finished subtrees stay apart, contours stay threaded, and the forests being built stay settled |
| `TidyTree.Layout.Apportion` | bin/site/static/js/chunk-0a2934a6.0a828618.js:1 | "22da" apportion: when it is done, the subtree is apart from the forest of its left siblings on every level they share, and on one of them no farther than needed; no inner node is out of centre, and the joined forest has its threaded contours, with the ends of all levels and their positions on them |
| `TidyTree.Layout.ThreadContours` | bin/site/static/js/chunk-0a2934a6.0a828618.js:1 | "22da": the thread fix-ups touch only leaves at the bottom of a contour, make up for the difference in sums, and leave the contours of the joined forest |
| `TidyRecords.ThreadRight` | bin/site/static/js/chunk-0a2934a6.0a828618.js:1 | "22da": a thread to the deeper left forest continues its right contour |
| `TidyRecords.ThreadLeft` | bin/site/static/js/chunk-0a2934a6.0a828618.js:1 | "22da": a thread to the deeper new subtree continues the left contour |
| `TidyTree.Layout.KeepApart` | bin/site/static/js/chunk-0a2934a6.0a828618.js:1 | "22da": one level of the loop: the sums are those along the threaded contours, the subtree moves by just what is missing, never left, and is then apart from the forest on this level and all above |
| `TidyTree.Layout.Push` | bin/site/static/js/chunk-0a2934a6.0a828618.js:1 | "22da" moveSubtree: the sibling charged is the one the conflicting node is under, and the records change as noting the move says |
| `TidyTree.Layout.LevelInOrder` | bin/site/static/js/chunk-0a2934a6.0a828618.js:1 | "22da", "ca29": if no neighbours may come closer than some distance, no two nodes of a level do, and they stand in the order of the tree |
| `TidyLevels.LevelApartNext` | bin/site/static/js/chunk-0a2934a6.0a828618.js:1 | "22da": walking one more node keeps all levels of finished subtrees apart: below walked nodes nothing moves, pending shifts only spread siblings, and the new subtree has been compared |
| `TidyLevels.ComparingNext` | bin/site/static/js/chunk-0a2934a6.0a828618.js:1 | "22da": one level of apportion keeps what the loop relies on: the running sums are positions, whoever has shifts pending is hidden, the sibling charged is the right one, and compared levels stay apart |
| `TidyLevels.MeetsNext` | bin/site/static/js/chunk-0a2934a6.0a828618.js:1 | "22da": a subtree that is moved meets the forest on the level in conflict, else where it met it before |
| `TidyLevels.LevelTightNext` | bin/site/static/js/chunk-0a2934a6.0a828618.js:1 | "22da": walking one more node leaves the families below walked nodes as close as they were, and a last child closes its family |
| `TidyLevels.SettledNext` | bin/site/static/js/chunk-0a2934a6.0a828618.js:1 | "22da": the joined forest is settled again: its contours are the ends of its levels, sums continued over a thread are positions, the default ancestor is right, and whoever has shifts pending is hidden |
| `TidyLevels.EndIsFinal` | bin/site/static/js/chunk-0a2934a6.0a828618.js:1 | "22da": a node at the end of a level has no shift pending, so its place along the contour is final |
| `TidyLevels.VeiledNext` | bin/site/static/js/chunk-0a2934a6.0a828618.js:1 | "22da": a move leaves shifts pending only for siblings whose subtrees end above the level in conflict |
| `TidyLevels.ContinuedSums` | bin/site/static/js/chunk-0a2934a6.0a828618.js:1 | "22da": the sums along a contour that goes on over a thread are the positions on the other contour |
| `TidyLevels.ChargedJoined` | bin/site/static/js/chunk-0a2934a6.0a828618.js:1 | "22da": after the marks and the default ancestor of one apportion, every node of the right contour is charged to the child it is under |
| `TidyLevels.RelSpread` | bin/site/static/js/chunk-0a2934a6.0a828618.js:1 | "22da": no two nodes under different siblings come closer when a later sibling is placed |
| `TidyLevels.BareExecuted` | bin/site/static/js/chunk-0a2934a6.0a828618.js:1 | "22da": executeShifts puts every node below where its noted shifts were to put it |
| `TidyLevels.FinalDifference` | bin/site/static/js/chunk-0a2934a6.0a828618.js:1 | "22da": the final positions of two nodes differ as their places below a common node |
| `TreeLevels.EndsJoin` | bin/site/static/js/chunk-0a2934a6.0a828618.js:1 | "22da": the left ends of the levels of two forests side by side go on in the right one, and the right ends in the left one |
| `TreeLevels.HiddenIsInside` | bin/site/static/js/chunk-0a2934a6.0a828618.js:1 | "22da": a subtree hidden between two deeper ones is at no end of a level |
| `TidyTree.Layout.ExecuteShifts` | bin/site/static/js/chunk-0a2934a6.0a828618.js:1 | "22da" executeShifts: the right-to-left pass gives each child the shifts noted for it |
| `TidyTree.Layout.ExecutedSiblings` | bin/site/static/js/chunk-0a2934a6.0a828618.js:1 | "22da": what that pass makes of the records is what LazyShifts.LazyIsImmediate is about |
| `TidyTree.Layout.PlaceNodes` | bin/site/static/js/chunk-0a2934a6.0a828618.js:1 | "22da" secondWalk: the parents-first pass gives each node its prelim plus the modifiers of all nodes above it |
| `TidyRecords.CentredSurvives` | bin/site/static/js/chunk-0a2934a6.0a828618.js:1 | "22da": placing a later node takes no walked node out of the middle of its children |
| `LazyShifts.LazyIsImmediate` | bin/site/static/js/chunk-0a2934a6.0a828618.js:1 | "22da" f, u: for any moves, noting them and one final pass gives every sibling the prelim and modifier of spreading each move at once |
| `LazyShifts.NoEffectOutside` | bin/site/static/js/chunk-0a2934a6.0a828618.js:1 | "22da": a move has no effect at or left of its left end, nor right of its right end |
| `LazyShifts.NeighboursSpread` | bin/site/static/js/chunk-0a2934a6.0a828618.js:1 | "22da": a move brings no two neighbours up to its right end closer |
| `LazyShifts.NotedPending` | bin/site/static/js/chunk-0a2934a6.0a828618.js:1 | "22da": what a note adds to the pending shift of a sibling is its linear share |
| `TreeTraversal.EachAfter` | bin/site/static/js/chunk-0a2934a6.0a828618.js:1 | "6d9a" eachAfter: children first, left to right, every node once |
| `TreeTraversal.EachBefore` | bin/site/static/js/chunk-0a2934a6.0a828618.js:1 | "6d9a" eachBefore: every node once, depth first from left to right: what comes before a node is above it or lies to its left with all that is under it |
| `SankeyRank.ComputeBreadths` | bin/site/static/js/chunk-0a2934a6.0a828618.js:1 | "81ac" d: the sweep ends with the cycle error if and only if the graph has a cycle; else each depth is the user's or the length of the longest path from a source, and the greatest one is right |
| `SankeyRank.RankIsLongest` | bin/site/static/js/chunk-0a2934a6.0a828618.js:1 | "81ac" d: levels that every edge raises and every non-source has reason for are longest path lengths |
| `SankeyRank.SweepEnd` | bin/site/static/js/chunk-0a2934a6.0a828618.js:1 | "81ac" d: when no node is left to sweep, some edge remains if and only if there is a cycle |
| `SankeyRank.LongPathHasCycle` | bin/site/static/js/chunk-0a2934a6.0a828618.js:1 | "81ac" d: a path with more nodes than the graph contains a cycle |
| `SankeyAlign.Align` | bin/site/static/js/chunk-0a2934a6.0a828618.js:1 | "81ac" p, g: after aligning, every edge without user depths still leads deeper, sinks are at the greatest depth for right and justify, and right gives distance to a sink; user depths are kept |
| `SankeyAlign.Heights` | bin/site/static/js/chunk-0a2934a6.0a828618.js:1 | "81ac" p: the reverse sweep ends, and computes the longest path to a sink |
| `SankeyAlign.LongestIsPath` | bin/site/static/js/chunk-0a2934a6.0a828618.js:1 | "81ac" p: that number bounds all paths from the node, and one path to a sink has it |
| `SankeyDiagram.BuildLayers` | bin/site/static/js/chunk-0a2934a6.0a828618.js:1 | "81ac" v: layers partition the nodes by coordinate, in ascending order |
| `SankeyDiagram.DepthsGiveForward` | bin/site/static/js/chunk-0a2934a6.0a828618.js:1 | "81ac" f, v: depths that grow along edges give layers in which every edge leads to a later one |
| `SankeyDiagram.Sankey.ComputeNodeValues` | bin/site/static/js/chunk-0a2934a6.0a828618.js:1 | "81ac" u: a node is worth the greatest of inflow, outflow and own value |
| `SankeyDiagram.Sankey.CommonScale` | bin/site/static/js/chunk-0a2934a6.0a828618.js:1 | "81ac" y: the scale is the smallest of the scales of the layers worth something, and infinite just when there is none or a worthless layer has no room for its gaps |
| `SankeyLayout.ScaleFits` | bin/site/static/js/chunk-0a2934a6.0a828618.js:1 | "81ac" y: at any scale up to its own a layer fits the extent, and at its own it fills it |
| `SankeyDiagram.Sankey.PlaceNodes` | bin/site/static/js/chunk-0a2934a6.0a828618.js:1 | "81ac" m: at a finite scale, for any number of rounds, the nodes go from their ranks through the resolver and the rounds to where they end: in each round, with alpha 0.99 times that of the one before, an outward and an inward pass, each followed by the resolver; the nodes of every layer end a gap apart, sized by that scale; if the gaps alone have room, every node ends inside the extent, and the nodes of some layer stand from 0 to its end |
| `SankeyDiagram.Sankey.HalfRound` | bin/site/static/js/chunk-0a2934a6.0a828618.js:1 | "81ac" m: a pass moves the nodes, and the resolver starts from where they were moved to |
| `SankeyDiagram.FullLayer` | bin/site/static/js/chunk-0a2934a6.0a828618.js:1 | "81ac" y, x: a layer that just fits stands from 0 to the end of the extent with only the gaps between its nodes |
| `SankeyChart.LayOut` | bin/site/static/js/chunk-0a2934a6.0a828618.js:1 | "81ac" s, c: the whole layout: the cycle error exactly on cyclic graphs; else layers by depth, with the depths that left, right and justify promise, edges forward when the user gives none; positions if and only if some node is worth something and every layer of worthless nodes has room for its gaps; then these come about by the rounds, of which there are none if a node is worth nothing; nodes apart and packed, ribbons sorted, stacked and inside their nodes |
| `SankeyChart.Columns` | bin/site/static/js/chunk-0a2934a6.0a828618.js:1 | "81ac" d, p, g, f, v: ranks, alignment and layers one after the other: layers are the nodes of one depth by ascending depth; depths are longest paths from a source on the left, what is left of the greatest depth by the longest path to a sink on the right, and justified with the sinks at the greatest |
| `SankeyChart.Across` | bin/site/static/js/chunk-0a2934a6.0a828618.js:1 | "81ac" m, L: node values, positions and ribbons one after the other, without relaxation if a node is worth nothing; a finite scale, the least of those at which a layer just fits, if and only if some layer is worth something and none of worthless nodes lacks room |
| `SankeyChart.ScalableMeans` | bin/site/static/js/chunk-0a2934a6.0a828618.js:1 | "81ac" y: what makes the search for the scale end, said by what nodes are worth |
| `SankeyPack.Resolve` | bin/site/static/js/chunk-0a2934a6.0a828618.js:1 | "81ac" x: nodes end a gap apart, inside the extent if they fit, and where they were if nothing was wrong; they are pushed to the first free places and from there back to the last free ones |
| `SankeyPack.PushForward` | bin/site/static/js/chunk-0a2934a6.0a828618.js:1 | "81ac" x: of all positions that are a gap apart, from 0 on and not before the old ones, the least |
| `SankeyPack.PushBackward` | bin/site/static/js/chunk-0a2934a6.0a828618.js:1 | "81ac" x: of all positions that are a gap apart, end in the extent and are not behind the old ones, the greatest; nobody falls below its floor |
| `SankeyDiagram.Sankey.ResolveCollisions` | bin/site/static/js/chunk-0a2934a6.0a828618.js:1 | "81ac" x: on all layers; each is sorted by where its nodes stood and pushed apart from there |
| `SankeyDiagram.Sankey.Relax` | bin/site/static/js/chunk-0a2934a6.0a828618.js:1 | "81ac" _, D: the nodes move one after the other in the order of the pass; when edges lead to later layers, each moves by alpha of the way to where its neighbours stand at the end of the pass |
| `SankeyDiagram.MovedBalances` | bin/site/static/js/chunk-0a2934a6.0a828618.js:1 | "81ac" _, D: a move goes by alpha of the way from the middle of the node to the point about which its edges balance: the distances of the middles of the other nodes times edge value add up to nothing, or the plain distances if the edges are worth nothing |
| `SankeyLayout.PullBetween` | bin/site/static/js/chunk-0a2934a6.0a828618.js:1 | "81ac" _, D: what pulls a node lies among its neighbours, weighted or, if all weights are zero, not |
| `SankeyDiagram.MovedInto` | bin/site/static/js/chunk-0a2934a6.0a828618.js:1 | "81ac" _, D: no move leaves the range of the node and its neighbours |
| `SankeyDiagram.Sankey.PlaceEdges` | bin/site/static/js/chunk-0a2934a6.0a828618.js:1 | "81ac" L: ribbons on both sides of each node are stacked in the order of their other ends, without overlap, inside the node |
| `SankeyLayout.StackWithin` | bin/site/static/js/chunk-0a2934a6.0a828618.js:1 | "81ac" L: a stack begins at 0, has no gaps and stays within the sum of its widths |
| `RealSums.SortBy` | bin/site/static/js/chunk-0a2934a6.0a828618.js:1 | "81ac", "9ca8": the sort keeps the elements, orders them by key, ties by index, and leaves a sorted list alone |
| `TreemapChildren.FilterByThreshold` | bin/site/static/js/chunk-0a2934a6.0a828618.js:1 | "9ca8" b: the children dropped are the first ones in ascending and the last ones in descending order, each too small for the area against the total of those not yet dropped, and none that is kept is too small against what is left |
| `TreemapChildren.DroppedAll` | bin/site/static/js/chunk-0a2934a6.0a828618.js:1 | "9ca8" b: everything is dropped if and only if the whole area is below the threshold |
| `TreemapChildren.InitChildren` | bin/site/static/js/chunk-0a2934a6.0a828618.js:1 | "9ca8" _: shown areas are proportional to values, add up to the node's area and are not below the threshold; nothing is shown just when the sum is zero or the area too small |
| `TreemapChildren.SortChildren` | bin/site/static/js/chunk-0a2934a6.0a828618.js:1 | "9ca8" w: upwards or downwards by value, equal ones by index the same way |
| `TreemapTiling.Squarify` | bin/site/static/js/chunk-0a2934a6.0a828618.js:1 | "9ca8" x: the row loop ends; the cells tile the container, each with its child's area; each child rectangle lies in its cell; the rows are greedy |
| `TreemapTiling.TilingMeans` | bin/site/static/js/chunk-0a2934a6.0a828618.js:1 | "9ca8" I: each point of the container is in one cell, no point is in two, and none outside is in any |
| `TreemapTiling.PlaceRow` | bin/site/static/js/chunk-0a2934a6.0a828618.js:1 | "9ca8" I: the cells of a row fill a slab along the shorter side, and what remains has the remaining area |
| `TreemapTiling.FillSlab` | bin/site/static/js/chunk-0a2934a6.0a828618.js:1 | "9ca8" I: cell after cell with the right area, the last one to the end of the slab exactly |
| `TreemapTiling.InsetInside` | bin/site/static/js/chunk-0a2934a6.0a828618.js:1 | "9ca8" I: with any gap the child rectangle lies in its cell; it is a gap smaller, or empty, and half a gap off the corner of the cell if it is that large; with room for two gaps it is half a gap off each side |
| `TreemapTiling.Worst` | bin/site/static/js/chunk-0a2934a6.0a828618.js:1 | "9ca8" M: the loop computes the formula on the extreme areas, areas of zero aside |
| `TreemapTiling.WorstIsGreatest` | bin/site/static/js/chunk-0a2934a6.0a828618.js:1 | "9ca8" M: that formula is the greatest stretch of any cell in the row, and one cell has it |
| `TreemapTiling.StretchOfCell` | bin/site/static/js/chunk-0a2934a6.0a828618.js:1 | "9ca8" M: stretch is the greater of the two ratios of the sides of a cell against the wanted one |
| `TreemapLayout.LayOutChildren` | bin/site/static/js/chunk-0a2934a6.0a828618.js:1 | "9ca8" x, _: the cells tile what border and title leave of the node and half a gap more on each side, and share out its area by value; rectangles are inside the cells; where a cell has room for two gaps, its rectangle leaves border and title free and reaches them at the edges; a single child has all that they leave |
| `TreemapLayout.BoxInsideBorder` | bin/site/static/js/chunk-0a2934a6.0a828618.js:1 | "9ca8" x: a child with room for two gaps leaves border and title free, and touches them where its cell is at an edge |
| `TreemapLayout.BoxesReach` | bin/site/static/js/chunk-0a2934a6.0a828618.js:1 | "9ca8" x: if all cells have such room, the children together reach the border on the left, on the right and below, and the title or border above |
| `TreemapLayout.TilesReach` | bin/site/static/js/chunk-0a2934a6.0a828618.js:1 | "9ca8" I: rectangles that tile a container reach all its sides |
| `LinkedNodes.FindLinkedNodes` | bin/site/static/js/chunk-0a2934a6.0a828618.js:1 | "50e5" createLinkedNodesFinder: ends, and returns exactly the nodes connected with the source, each once, with the union of their indices |
| `LinkedNodes.Sweep` | bin/site/static/js/chunk-0a2934a6.0a828618.js:1 | "50e5": a round takes in linked nodes only, and a round without any means that none is left |
| `LinkedNodes.NothingOutside` | bin/site/static/js/chunk-0a2934a6.0a828618.js:1 | "50e5": when nothing outside shares an index, all connected nodes are inside |
| `SliderMove.SliderMove` | bin/site/static/js/chunk-0a2934a6.0a828618.js:1 | "ef6a": both handles stay in the extent; for the bounds as asked for, the span is at least the least one, or the whole extent, and at most the greatest one unless the least or 0 is greater; a window dragged as a whole keeps a width that meets them, else takes the bound it does not meet |
| `SliderMove.MoveHandle` | bin/site/static/js/chunk-0a2934a6.0a828618.js:1 | "ef6a": where the dragged handle goes, and when and where to the other one is pushed or pulled |
| `SliderMove.HandleMoved` | bin/site/static/js/chunk-0a2934a6.0a828618.js:1 | "ef6a": for a window in the extent and bounds that make sense: the handle comes as near to its target as extent and least span allow, and the other one stays unless a bound moves it; without a least span the handle may pass the other one |
| `SliderMove.WindowMoved` | bin/site/static/js/chunk-0a2934a6.0a828618.js:1 | "ef6a": a window that is dragged as a whole comes as near to its target as the extent allows |
| `SliderMove.StartsInExtent` | bin/site/static/js/chunk-0a2934a6.0a828618.js:1 | "ef6a": a handle outside the extent counts as at its end |
| `SliderMove.BoundedIsNearest` | bin/site/static/js/chunk-0a2934a6.0a828618.js:1 | "ef6a": the dragged handle goes as near to its target as extent and least span allow |
| `SliderMove.NeverSwapped` | bin/site/static/js/chunk-0a2934a6.0a828618.js:1 | "ef6a": with a least span the handles never swap, wherever they start in order; without one they do exactly when the lower handle, kept in the extent, passes the other and the greatest span is not zero |
| `SliderMove.NeverSwappedUpper` | bin/site/static/js/chunk-0a2934a6.0a828618.js:1 | "ef6a": the same for the upper handle |
| `SliderMove.NothingMoved` | bin/site/static/js/chunk-0a2934a6.0a828618.js:1 | "ef6a": a window that meets its bounds is unchanged by a move of nothing |
| `ZoomHistory.Run` | bin/site/static/js/chunk-0a2934a6.0a828618.js:1 | "6fda": over any run of zooms and steps back, the ranges in force are those a stack of full states would give |
| `ZoomHistory.History.Pop` | bin/site/static/js/chunk-0a2934a6.0a828618.js:1 | "6fda" pop: for every component of the removed snapshot, the range in force before it was pushed; the stack is never emptied |
| `ZoomHistory.History.Push` | bin/site/static/js/chunk-0a2934a6.0a828618.js:1 | "6fda" push: late entries into the base layer change no recorded state |
| `ZoomHistory.History.Back` | bin/site/static/js/chunk-0a2934a6.0a828618.js:1 | "6fda": a step back undoes a zoom completely |
| `ZoomHistory.LookupInForce` | bin/site/static/js/chunk-0a2934a6.0a828618.js:1 | "6fda": what the layers up to any height give is what was in force then |
| `GeneratorRuntime.Generator.Invoke` | bin/site/static/js/chunk-56ca3884.f77b6834.js:1 | "96cf" j: a call does to the context object, and answers, what Called does to the context as a value |
| `GeneratorRuntime.Generator.InvokeAll` | bin/site/static/js/chunk-56ca3884.f77b6834.js:1 | "96cf" j: so do any number of calls one after the other |
| `GeneratorRuntime.Generator.RunLoop` | bin/site/static/js/chunk-56ca3884.f77b6834.js:1 | "96cf" j: the loop that the runtime runs ends, and is the recursion Loop and Go over the steps of the body |
| `GeneratorRuntime.Generator.DispatchException` | bin/site/static/js/chunk-56ca3884.f77b6834.js:1 | "96cf" dispatchException: the exception goes to the innermost live handler, or to the end |
| `GeneratorRuntime.Generator.AbruptReturn` | bin/site/static/js/chunk-56ca3884.f77b6834.js:1 | "96cf" abrupt: a return goes to the innermost finalizer, or ends the body |
| `GeneratorRuntime.Generator.AbruptJump` | bin/site/static/js/chunk-56ca3884.f77b6834.js:1 | "96cf" abrupt: a break or continue goes through the innermost finalizer unless its target is in that statement |
| `GeneratorRuntime.Generator.FinishFinally` | bin/site/static/js/chunk-56ca3884.f77b6834.js:1 | "96cf" finish, complete: what was pending is carried out, and forgotten unless it is a throw |
| `GeneratorRuntime.Generator.Catch` | bin/site/static/js/chunk-56ca3884.f77b6834.js:1 | "96cf" catch: the exception sent to the block, once |
| `GeneratorSteps.LiveIsFirst` | bin/site/static/js/chunk-56ca3884.f77b6834.js:1 | "96cf" dispatchException: the flat search for a live handler finds the innermost statement around the location |
| `GeneratorSteps.FinallyIsFirst` | bin/site/static/js/chunk-56ca3884.f77b6834.js:1 | "96cf" abrupt: the flat search for a finalizer finds the innermost statement around that has one |
| `GeneratorTable.InnermostFirst` | bin/site/static/js/chunk-56ca3884.f77b6834.js:1 | "96cf": in a well nested table the statements around a location guard one another, later entries inside earlier ones |
| `GeneratorTable.FramesInFinalizer` | bin/site/static/js/chunk-56ca3884.f77b6834.js:1 | "96cf": in a finalizer, the statements still around are those around its own |
| `GeneratorUnwinding.ReturnRunsAllFinalizers` | bin/site/static/js/chunk-56ca3884.f77b6834.js:1 | "96cf": nested statements: on the way of a return are just the finalizers around, inner to outer, and its end is its own value |
| `GeneratorUnwinding.ThrowGoesToFirstCatch` | bin/site/static/js/chunk-56ca3884.f77b6834.js:1 | "96cf": nested statements: on the way of a throw are the finalizers up to the first catch block, and it ends there or with the error |
| `GeneratorUnwinding.AllTheWayOut` | bin/site/static/js/chunk-56ca3884.f77b6834.js:1 | "96cf": what is raised leaves the statements on its way one after the other and each once, whatever try statements are gone through in their finalizers, unless something takes over |
| `GeneratorUnwinding.SlipsExactly` | bin/site/static/js/chunk-56ca3884.f77b6834.js:1 | "96cf": at every stage of unwinding and for every act, the runtime does what nested statements do if and only if the act is none of the jumps and ends of finalizers that slip |
| `GeneratorUnwinding.SameWithoutSlips` | bin/site/static/js/chunk-56ca3884.f77b6834.js:1 | "96cf": so a course of acts none of which slips is that of nested statements |
| `GeneratorCalls.CallUnwinds` | bin/site/static/js/chunk-56ca3884.f77b6834.js:1 | "96cf" j: for every table, place and steps, with any finalizers already in progress, a throw or return sent into the body runs the course of unwinding from where it stands: its places, its end, and what the entries remember and log |
| `GeneratorCalls.StepTurns` | bin/site/static/js/chunk-56ca3884.f77b6834.js:1 | "96cf" abrupt, finish, catch: at every stage, one step of the body, also in try statements nested in a finalizer, is one turn of unwinding by the rules of the runtime |
| `GeneratorCalls.BodyRaises` | bin/site/static/js/chunk-56ca3884.f77b6834.js:1 | "96cf" j: so does a throw, return or jump that the body raises anywhere, caught or not, in finalizers or not |
| `GeneratorCalls.CallResumes` | bin/site/static/js/chunk-56ca3884.f77b6834.js:1 | "96cf" j: a next into a body that has yielded while it is being left takes up what is pending there |
| `GeneratorCalls.FinalizerUnwinds` | bin/site/static/js/chunk-56ca3884.f77b6834.js:1 | "96cf" finish, abrupt: from any stage the rest of a call runs the rest of the course: ends of finalizers and of statements nested in them, what they raise and catch, and yields |
| `GeneratorCalls.GoInParts` | bin/site/static/js/chunk-56ca3884.f77b6834.js:1 | "96cf" j: a call goes on from any point of it as from its start |
| `GeneratorRuns.RunOfCalls` | bin/site/static/js/chunk-56ca3884.f77b6834.js:1 | "96cf" j: over any run of calls, a body that is left runs the course of unwinding by the rules of the runtime, when it yields on the way, whatever it does in its finalizers |
| `GeneratorRuns.RunAsNested` | bin/site/static/js/chunk-56ca3884.f77b6834.js:1 | "96cf" j: and it is the course of nested statements when no act slips |
| `GeneratorRuns.ReturnOverCalls` | bin/site/static/js/chunk-56ca3884.f77b6834.js:1 | "96cf" j: over any run of calls a return, sent in or raised by the body, leaves each enclosing statement with a finalizer once, the inner before the outer, also through finalizers with try statements of their own, and the last call ends with its value |
| `GeneratorRuns.ThrowOverCalls` | bin/site/static/js/chunk-56ca3884.f77b6834.js:1 | "96cf" j: over any run of calls a throw leaves the statements up to the first catch block around, once each, and goes on there, or ends the generator with the error |
| `GeneratorRuns.UndisturbedAsNested` | bin/site/static/js/chunk-56ca3884.f77b6834.js:1 | "96cf": that nothing takes over may be seen by the rules of the language, if no act slips |
| `GeneratorRuns.CallStates` | bin/site/static/js/chunk-56ca3884.f77b6834.js:1 | "96cf" j: a running generator refuses and stays as it is, a throw before the start completes it, and the state after a call tells how it ended |
| `GeneratorRuns.CompletedForGood` | bin/site/static/js/chunk-56ca3884.f77b6834.js:1 | "96cf" j: a completed generator never enters its body again |
| `GeneratorDifferences.BreakOverCalls` | bin/site/static/js/chunk-56ca3884.f77b6834.js:1 | "96cf": a break out of a finalizer wins over what is pending, as it should, if and only if that is no throw, or the finalizer has yielded since it was sent there, or another finalizer is in the way of the break |
| `GeneratorDifferences.BreakIsLost` | bin/site/static/js/chunk-56ca3884.f77b6834.js:1 | "96cf": calls in which it does not, nor a jump within the finalizer: they end with the error |
| `GeneratorDifferences.BreakAfterYield` | bin/site/static/js/chunk-56ca3884.f77b6834.js:1 | "96cf": the same break after a yield is carried out |
| `GeneratorDifferences.JumpOverFinalizers` | bin/site/static/js/chunk-56ca3884.f77b6834.js:1 | "96cf": a break through several finalizers runs the first and then goes on at its target, which is right if and only if no other one is in its way |
| `GeneratorDifferences.OuterFinalizerSkipped` | bin/site/static/js/chunk-56ca3884.f77b6834.js:1 | "96cf": a call in which the outer finalizer does not run |
| `GeneratorDifferences.JumpWithinFinalizer` | bin/site/static/js/chunk-56ca3884.f77b6834.js:1 | "96cf": a jump that stays in its finalizer goes on there if and only if no throw of the same call is pending; else the rest of the finalizer does not run |
| `GeneratorDifferences.NestedEnd` | bin/site/static/js/chunk-56ca3884.f77b6834.js:1 | "96cf" finish: the normal end of a statement nested in a finalizer goes on behind it if and only if no throw of the same call is pending; else the throw is sent on and the rest of the finalizer does not run |
| `GeneratorDifferences.RestIsSkipped` | bin/site/static/js/chunk-56ca3884.f77b6834.js:1 | "96cf": a call in which it does not run |
| `GeneratorDifferences.RestIsRun` | bin/site/static/js/chunk-56ca3884.f77b6834.js:1 | "96cf": the same end after a return goes on |
| `GeneratorDifferences.StepSlips` | bin/site/static/js/chunk-56ca3884.f77b6834.js:1 | "96cf": on the machine as on the course: a step does what nested statements do if and only if it does not slip |
| `GeneratorDifferences.SlipOverCalls` | bin/site/static/js/chunk-56ca3884.f77b6834.js:1 | "96cf": over any run of calls in which only the last step may slip, the run ends as nested statements do if and only if that one does not |
| `GeneratorMemory.RunRemembers` | bin/site/static/js/chunk-56ca3884.f77b6834.js:1 | "96cf": over any run of calls an entry remembers nothing if its last leaving was answered, a throw by its catch block and anything else by the end of the finalizer, and else how its blocks were left |
| `GeneratorMemory.FinishedAgain` | bin/site/static/js/chunk-56ca3884.f77b6834.js:1 | "96cf" finish: a finalizer reached by a normal exit goes on after its statement if and only if the last leaving was answered or was a jump to there; else it does once more what that one did |
| `GeneratorMemory.ThrownLast` | bin/site/static/js/chunk-56ca3884.f77b6834.js:1 | "96cf": with no catch block that asks, it throws if and only if the blocks were last left by a throw, however long ago |
| `GeneratorDifferences.OldExceptionAgain` | bin/site/static/js/chunk-56ca3884.f77b6834.js:1 | "96cf": a call in which an inner finalizer throws an exception once more that was caught outside long before |
| `ChunkLoader.Loader.Run` | bin/site/static/js/app.eb0983c1.js:1 | for any order of requests, arrivals, errors and timeouts: what is loaded stays loaded, no settled promise changes, each is settled at most once, every entry that ran has all its chunks loaded and its module run once, and every entry that waits lacks a chunk |
| `ChunkLoader.Loader.Ask` | bin/site/static/js/app.eb0983c1.js:1 | i.e: pending requests share one promise, a loaded chunk needs none, a failed one is asked for anew |
| `ChunkLoader.Loader.Arrive` | bin/site/static/js/app.eb0983c1.js:1 | jsonp callback t: just the chunks that arrived are marked as loaded, and all promises waiting for them resolved; a late arrival after a failure installs without settling again; what can run has run |
| `ChunkLoader.Loader.ScriptEnds` | bin/site/static/js/app.eb0983c1.js:1 | script handler: only the first report counts, and it rejects just the promise still pending |
| `ChunkLoader.Loader.RunDeferred` | bin/site/static/js/app.eb0983c1.js:1 | n: one pass with splice runs exactly the entries all of whose chunks are loaded, in order, and keeps the others in order, each of which lacks a chunk |
| `ChunkLoader.RunnableOrBlocked` | bin/site/static/js/app.eb0983c1.js:1 | n: every entry is run or kept |
| `ChunkLoader.Arrived` | bin/site/static/js/app.eb0983c1.js:1 | t: after an arrival, each waiting chunk still has one live attempt and each pending promise is waited for |

## Left out

- Floating point: coordinates are `real`; rounding, NaN and infinities appear only as the branches they lead to.
- Arrays of nodes, `setLayout` records and the mutable rectangle of the treemap rows are sequences and values that the methods reassign; aliasing between them is not modelled. Paths, components, painter, tree records, sankey, generator, loader and history are objects.
- Sorting is a stable insertion sort; the engine's own algorithm is not part of this model.
- ArrayDiff.TurnsBeforeIntoAfter: for a comparator that is equality; with another one the kept elements are pairs the comparator accepts, which is what ArrayDiff.Diff states.
- SankeyDiagram.Sankey.PlaceNodes: an infinite common scale is an outcome of its own; the positions that are not numbers which it leads to are not modelled.
- SankeyRank.ComputeBreadths: user depths are natural numbers.
- SankeyChart.LayOut: the distance of one depth from the next is a positive number; the division by a greatest depth of 0, which gives all nodes one undefined coordinate, and charts narrower than a node are not modelled.
- GeneratorRuntime.Generator.Invoke: delegation to another iterator and the value that a yield receives are not modelled.
- GeneratorRuns.RunOfCalls: a return before the body has started unwinds from location 0, as in the code, where the language would not enter a finalizer.
- ChunkLoader.Loader.Run: style sheet chunks, the module table and modules that ask for chunks while they run are not modelled.
- ZoomHistory.Run: ranges change through the history only.
- Radial trees, view scaling and edge shapes of the tree, and the flow coordinate of vertical sankeys beyond its name.
- Treemap zooming, root positions, leaf depth and hidden children, and the culling of invisible nodes.
- Force layout, gauges, pies, labels, axes and canvas drawing, which have no crisp claim.
- Calendar coordinates, which depend on dates and time zones.
- The graph's breadth-first traversal "7368": only its node and edge lists are used.
- The script loader "d409", which adds little beyond the chunk protocol.
- Pages, dialogs, tables, requests, cookies and router guards.
