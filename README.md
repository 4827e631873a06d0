# Tree store and table layout, in Dafny

This project models the client-side core of a tree editor: the
path-addressed node store of `static/tree_data.js` (`TreeData`) and the
layout of `static/tree_view.js` (`TreeView`). That layout turns the tree
into a table, one row per depth and one column per leaf. Every non-root
node gets a cell in the row of its depth, and the cell spans the columns
of the leaves below it.

- `paths.dfy` (module `Paths`) gives JavaScript's `split` and `join` on
  the `/` separator, and the short id and parent id derived from them.
  It proves that split and join undo each other.
- `decimal.dfy` (module `Decimal`) gives the base-10 text of the counter
  (`toString(10)`) and its round trip.
- `tree_data.dfy` (module `TreeData`) holds the class `Store`.
  - Its `nodes` map takes every node's id to its children map: keys in
    insertion order, and the child id under each key.
  - Its `lastInternalId` is the counter.
  - `getNode`, `addNode` and `removeNode` are methods. Each is proved
    against a specification function: `Lookup`, `Added` and `Removed`.
  - The store invariant `StoreInv` is kept by every change. It says that
    a child's id is its parent's id, `/` and its key, and that every key
    is a counter value already handed out.
  - `Subtree` reads the tree under a node as a `Tree` value. `Width`
    gives its column count, and `WidthCountsLeaves` proves that count is
    the number of leaves.
- `tree_view.dfy` (module `TreeView`) holds the class `Grid`, the rows of
  the table being built.
  - `LayoutNodeChildren`, `PlaceChild` and `Render` are the recursive walk
    that fills the rows, proved against the specification functions
    `LayoutRows`, `LayoutUnder` and `PlacedChild`.
  - Lemmas about those functions prove the layout invariants. Every cell
    spans at least one column and carries its label. Padding cells come
    only just before a node cell, or at the end of an emitted row. Every
    emitted row spans exactly the header's width. The first row lists the
    root's children in order.

A node is named by its id throughout. Ids are unique: the last segment of
an id is a counter value, and each value is handed out once.

## Model

| member | source | states |
|---|---|---|
| Decimal.NatToDecimal | static/tree_data.js:76 | the counter's text is a non-empty string of decimal digits |
| Decimal.DecimalRoundTrip | static/tree_data.js:76 | reading the text of `n` back as a decimal number gives `n`, so distinct counter values give distinct keys |
| Paths.Split | static/tree_data.js:27 | `split("/")` yields at least one piece |
| Paths.Join | static/tree_data.js:27 | `join("/")` starts with the first piece, and puts a separator in between once there are two pieces |
| Paths.ShortId | static/tree_data.js:30-32 | `getShortId` is the last piece of the id, which holds no separator |
| Paths.ParentId | static/tree_data.js:26-28 | `getNodeParentId` is every piece but the last, joined again: "" for an id without separator |
| Paths.SplitPieces | static/tree_data.js:27 | no piece of a split contains the separator |
| Paths.JoinSplit | static/tree_data.js:27 | joining the pieces of a string with "/" gives the string back |
| Paths.SplitJoin | static/tree_data.js:27 | splitting the join of separator-free pieces gives the pieces back |
| Paths.SplitAppend | static/tree_data.js:77 | appending "/" and a separator-free key to an id appends exactly one piece |
| Paths.ChildIdParts | static/tree_data.js:26-32 | for a child id `parent + "/" + key`, `getShortId` gives `key` and `getNodeParentId` gives `parent` |
| Paths.ShortIdIsLastSegment | static/tree_data.js:26-32 | the short id is the separator-free tail of the id; `parentId + "/" + shortId == id` when the id has a separator, and both are the id itself and "" when it has none (for the root "", both are "") |
| TreeData.RemoveKey | static/tree_data.js:89 | `Map.delete` on the key order: exactly `k` leaves, every other key stays, no key is repeated, and nothing changes when `k` is absent |
| TreeData.RemoveKeyKeepsOrder | static/tree_data.js:89 | deleting the key at index `i` leaves the keys before it and the keys after it, each in their order: `keys[..i] + keys[i + 1..]` |
| TreeData.Without | static/tree_data.js:89 | the children map after `delete(k)`: `k` is gone, every other entry stays with the same child |
| TreeData.DistinctCount | static/tree_data.js:38-40 | a key list without repeats has as many entries as the map has keys |
| TreeData.AddLeafKeepsInv | static/tree_data.js:74-78 | a new node with an empty children map keeps the store invariant |
| TreeData.ReplaceKeepsInv | static/tree_data.js:79 | replacing a node's children map by a well-formed one over existing nodes keeps the store invariant |
| TreeData.KidsInStore | static/tree_data.js:42-46 | every key of a node is a non-empty segment, and every child it names is a node of the store whose id is the parent's id, "/" and the key |
| TreeData.StampOfSegment | static/tree_data.js:30-32 | the counter value an id without separator stands for is the value of the whole id |
| TreeData.StampIsShortIdValue | static/tree_data.js:30-32 | the counter value of any id is the value of its short id |
| TreeData.NextKeyIsFresh | static/tree_data.js:76 | the next counter value is a segment with value `last + 1`; no children map holds it as a key, no node of the store has it as its short id, and the new id is not taken |
| TreeData.AppendKeyOk | static/tree_data.js:79 | a new key appended last, naming the child it spells, keeps a children map well formed |
| TreeData.InsertKeepsInv | static/tree_data.js:74-79 | inserting a new childless node under a fresh key keeps the store invariant |
| TreeData.DeleteKeepsInv | static/tree_data.js:89 | deleting any key from a children map keeps the store invariant |
| TreeData.Store.constructor | static/tree_data.js:10-12 | the store starts with the root alone, with id "" and no children, and the counter at 0 |
| TreeData.Store.Init | static/tree_data.js:94-97 | `init` gives the root id "" and a fresh empty children map; nothing else changes |
| TreeData.Store.GetRoot | static/tree_data.js:14-16 | the root is a node of the store; its short id and its parent id are both "" |
| TreeData.Store.GetNodeChild | static/tree_data.js:48-50 | a child is found exactly when the key is listed, and it is the node `node + "/" + key` |
| TreeData.Store.ChildIdsSplit | static/tree_data.js:48-50 | the child found under a key has that key as its short id and the node's id as its parent id |
| TreeData.Store.GetNodeChildrenCount | static/tree_data.js:38-40 | the count is the size of the children map |
| TreeData.Store.ChildIds | static/tree_data.js:42-46 | one child per key, in insertion order, each a node of the store named `node + "/" + key` |
| TreeData.Store.GetNodeChildren | static/tree_data.js:42-46 | the iterator yields exactly the children, in insertion order |
| TreeData.Store.ChildIdsByKey | static/tree_data.js:42-50 | the `j`-th child yielded is what `getNodeChild` finds under the `j`-th key |
| TreeData.Store.ChildDeeper | static/tree_data.js:77-79 | a child is a node of the store, named by the parent's id, "/" and its key, with a longer id than its parent |
| TreeData.Store.ChildIdsDistinct | static/tree_data.js:42-46 | the iterator yields each child once |
| TreeData.Store.Descend | static/tree_data.js:54-63 | the walk down a path ends, if anywhere, at a node of the store |
| TreeData.Store.Step | static/tree_data.js:56-62 | one step of the walk stays on a node of the store or stops |
| TreeData.Store.Resolve | static/tree_data.js:53-64 | a path string resolves, if at all, to a node of the store |
| TreeData.Store.Lookup | static/tree_data.js:52-68 | a reference names, if anything, a node of the store |
| TreeData.Store.GetNode | static/tree_data.js:52-68 | a node is returned as it is; a path is walked from the root, skipping empty segments, giving nothing at the first missing key |
| TreeData.Store.GetNodeParent | static/tree_data.js:22-24 | the parent is what the node's parent id resolves to |
| TreeData.Store.NodeToString | static/tree_data.js:34-36 | the result is the short id of the node or of the id string, and contains no separator |
| TreeData.Store.Added | static/tree_data.js:74-79 | a step that adds: one new node, childless; the parent's key list grows by the new key, last; every other node keeps its children map |
| TreeData.Store.AddNode | static/tree_data.js:70-82 | if the parent does not resolve: no node, no change, counter unchanged; otherwise the counter goes up by one, and a childless node with id `parent + "/" + counter` is inserted last under a key no map held and no node had as its short id, with an id no node had, and nothing else changed |
| TreeData.Store.AddChild | static/tree_data.js:74-79 | the insertion itself, with the same new state as `AddNode`'s success case |
| TreeData.Store.AddKeepsInv | static/tree_data.js:74-79 | the insertion is an `Added` step and keeps the store invariant with the counter advanced |
| TreeData.Store.Removed | static/tree_data.js:84-92 | a removal keeps every node and the store invariant, and only ever takes keys out of children maps |
| TreeData.Store.RemoveNode | static/tree_data.js:84-92 | exactly the node's short id is deleted from the children map of the node its parent id resolves to; nothing changes when either does not resolve; the counter is kept |
| TreeData.Store.DeleteChild | static/tree_data.js:89 | only the key leaves only that children map |
| TreeData.Store.RemovingRootIsNoop | static/tree_data.js:84-92 | `removeNode("")` changes nothing |
| TreeData.Store.DescendNoneStays | static/tree_data.js:59-61 | once a key is missing, the rest of the path cannot lead anywhere |
| TreeData.Store.NonEmptyDropsLeadingEmpty | static/tree_data.js:57 | a leading empty segment is skipped |
| TreeData.Store.NonEmptyIdempotent | static/tree_data.js:57 | skipping empty segments twice is skipping them once |
| TreeData.Store.DescendSkipsEmpty | static/tree_data.js:57 | where a path leads depends only on its non-empty segments |
| TreeData.Store.DescendSpellsId | static/tree_data.js:54-63 | the node a path reaches has as the pieces of its id "" followed by the path's non-empty segments |
| TreeData.Store.IdRoundTrip | static/tree_data.js:52-68 | every node reachable from the root is what its own id resolves to |
| TreeData.Store.ParentOfReachable | static/tree_data.js:22-28 | a reachable non-root node's parent id resolves to its parent, which lists it under its short id |
| TreeData.Store.NonEmptyHasNoEmpty | static/tree_data.js:57 | the segments kept by the walk are all non-empty |
| TreeData.Store.ResolveEmptyIsRoot | static/tree_data.js:53-64 | `getNode("")` is the root |
| TreeData.Store.Subtree | static/tree_data.js:42-46 | the subtree under a node has that node's id and one subtree per child |
| TreeData.Store.SubtreesOf | static/tree_data.js:42-46 | the `j`-th subtree is the subtree of the `j`-th child |
| TreeData.Store.SubtreeAt | static/tree_data.js:42-46 | the `i`-th subtree under a node is the subtree of its `i`-th child, a node with a longer id |
| TreeData.Store.SubtreeRoots | static/tree_data.js:42-46 | the roots of the subtrees under a node are its children in insertion order |
| TreeData.Roots | static/tree_view.js:69-73 | one root per subtree |
| TreeData.RootsAt | static/tree_view.js:69-73 | the `j`-th root is the id of the `j`-th subtree |
| TreeData.Width | static/tree_view.js:88-106 | the width of a subtree is 0 exactly when its root has no children |
| TreeData.WidthOf | static/tree_view.js:88-106 | children side by side take at least one column each |
| TreeData.Generation | static/tree_view.js:77-92 | the nodes `k + 1` levels below a subtree's root, left to right (no contract: its meaning is the layout's, `TreeView.LayoutGenerations`) |
| TreeData.GenerationOf | static/tree_view.js:69-92 | the nodes `k` levels below some subtrees' roots, left to right (no contract, as above) |
| TreeData.WidthCountsLeaves | static/tree_view.js:88-106 | the width `layoutNodeChildren` returns is the number of leaves below the node |
| TreeData.WidthOfCountsLeaves | static/tree_view.js:88-106 | the columns of some subtrees side by side are the leaves below them |
| TreeView.CellLabel | static/tree_view.js:112-118 | the label starts with "P:" and ends with "ID:" and the node's short id |
| TreeView.CellLabelOfChild | static/tree_view.js:112-118 | a child's label is "P:", the parent's short id or "NONE" under the root, a no-break space, "ID:" and the child's key |
| TreeView.PrefixSums | static/tree_view.js:128 | appending a cell leaves the spans and ids of the earlier cells alone |
| TreeView.AppendCellSums | static/tree_view.js:128 | an appended cell adds its span to the row and, for a node cell, its id last |
| TreeView.Flushed | static/tree_view.js:18-23 | `flushRowPadding` on a row value (no contract of its own: `FlushedKeeps` states what it does) |
| TreeView.FlushedKeeps | static/tree_view.js:18-23 | a padding cell of the pending span is added exactly when padding is pending; the count becomes 0; the row still ends at the same column with the same node cells |
| TreeView.FitToMeans | static/tree_view.js:109 | every cell spans one column or more, and every node cell carries its node's label |
| TreeView.FitToPrefix | static/tree_view.js:128 | cells appended later do not change whether the earlier ones fit |
| TreeView.PadsFollowedMeans | static/tree_view.js:123-128 | every padding cell has a node cell directly after it |
| TreeView.PadsFollowedPrefix | static/tree_view.js:128 | cells appended later do not change where the earlier padding cells stand |
| TreeView.Grown | static/tree_view.js:77-83 | rows are added up to the children's depth; the old rows are kept, and each new row is empty with the padding of the last old row, the first ever row with 0 |
| TreeView.Padded | static/tree_view.js:97-99 | every row from the children's depth down owes one more column of padding, with its cells unchanged |
| TreeView.PaddedTo | static/tree_view.js:97-99 | the same for the first `n` rows |
| TreeView.Placed | static/tree_view.js:125-128 | row `d` flushed and given the cell last (no contract of its own: `PlacedCells`, `PlacedIds`, `PlacedLevel` and `FlushedThenAppended` state what it does) |
| TreeView.Grid.constructor | static/tree_view.js:139 | the table starts without rows |
| TreeView.Grid.FlushRowPadding | static/tree_view.js:18-23 | row `i` becomes the flushed row, and no other row changes |
| TreeView.Grid.AddRowsThrough | static/tree_view.js:77-83 | the rows become `Grown` |
| TreeView.Grid.PadRowsFrom | static/tree_view.js:97-99 | the rows become `Padded` |
| TreeView.Grid.EmitRows | static/tree_view.js:153-164 | the rows emitted are the rows with cells, flushed and tagged with their depth; every row after them has no cells |
| TreeView.Grid.AppendCell | static/tree_view.js:128 | the cell goes last in row `i`, and no other row changes |
| TreeView.GrownCells | static/tree_view.js:77-83 | growing keeps the old rows, their cells and the no-gap rule |
| TreeView.GrownReady | static/tree_view.js:77-83 | the new rows start where the parent's row ends, so they line up under it |
| TreeView.PaddedCells | static/tree_view.js:97-99 | padding leaves the rows above and all cells alone |
| TreeView.PaddedLevel | static/tree_view.js:97-99 | padding moves every padded row's end one column on |
| TreeView.FlushedAppendOk | static/tree_view.js:125-128 | flushing and then appending a fit node cell keeps the row's cells fit and its padding cells followed by node cells |
| TreeView.PlacedCells | static/tree_view.js:125-128 | placing a node cell keeps every row's cells fit |
| TreeView.PlacedGapless | static/tree_view.js:125-128 | the row given a cell keeps the rule that rows with cells have rows with cells above them |
| TreeView.PlacedLevel | static/tree_view.js:125-128 | the row given the cell ends level with the rows below it |
| TreeView.PlacedIds | static/tree_view.js:128 | the placed node comes last among the row's node cells |
| TreeView.GrownShaped | static/tree_view.js:77-83 | rows fit for a node's children are, once grown, fit for its grandchildren |
| TreeView.DescendStep | static/tree_view.js:77-102 | after the walk below one child, the rows above the child's row are unchanged and all cells still fit |
| TreeView.DescendLevel | static/tree_view.js:77-102 | after the walk below one child, the child's row ends at the base and the rows below it one span further on |
| TreeView.LayoutRows | static/tree_view.js:57-133 | laying out a subtree never removes rows |
| TreeView.LayoutUnder | static/tree_view.js:73-129 | laying out some children leaves their row and the one below it in place |
| TreeView.PlacedChild | static/tree_view.js:75-128 | placing a child leaves its row and the one below it in place |
| TreeView.LayoutAbove | static/tree_view.js:57-133 | the rows above the children's row are left alone, all rows are left alone for a childless node, and otherwise the children's row gets cells |
| TreeView.LayoutUnderAbove | static/tree_view.js:73-129 | the same for some children |
| TreeView.PlacedChildAbove | static/tree_view.js:75-128 | placing a child leaves the rows above alone and lists it last in its row |
| TreeView.LayoutUnderIds | static/tree_view.js:73-129 | the children's row lists them in insertion order, after the node cells it already had |
| TreeView.GrownOldCells | static/tree_view.js:77-83 | the rows added hold no cells |
| TreeView.LayoutGenerations | static/tree_view.js:57-133 | laying out a subtree whose children go in row `d` appends to row `d + k`, in order, the nodes `k + 1` levels below its root |
| TreeView.LayoutUnderGenerations | static/tree_view.js:73-129 | the same for some children, in their order |
| TreeView.PlacedChildGenerations | static/tree_view.js:75-128 | placing a child appends it to its row, and its descendants `k` levels down to the row `k` below |
| TreeView.PlacedChildDescendants | static/tree_view.js:77-102 | below the child's own row, placing it appends exactly its descendants of that level |
| TreeView.PlacedChildBelow | static/tree_view.js:94-128 | below the child's own row, the padding and the flush leave the cells as the child's subtree left them |
| TreeView.GenerationOfLast | static/tree_view.js:69-73 | the nodes `k` levels below some subtrees end with those below the last of them |
| TreeView.LayoutShaped | static/tree_view.js:57-133 | the layout keeps the rows fit and gapless, and every row from the children's down ends one subtree width further on |
| TreeView.LayoutUnderShaped | static/tree_view.js:73-129 | the same for some children, by the width of them side by side |
| TreeView.PlacedChildShaped | static/tree_view.js:75-128 | placing a child moves the common end of the rows on by its span, at least one column |
| TreeView.LayoutOneMore | static/tree_view.js:73-129 | one more turn of the loop places the next child and adds its span to the width |
| TreeView.LayoutNodeChildren | static/tree_view.js:57-133 | the width returned is the subtree's width, and the rows become `LayoutRows` of the subtree |
| TreeView.PlaceChild | static/tree_view.js:75-128 | the span returned is the child's width, or 1 for a leaf, and the rows become `PlacedChild` |
| TreeView.FlushedThenAppended | static/tree_view.js:125-128 | flushing row `d` and then appending to it is `Placed` |
| TreeView.Render | static/tree_view.js:136-164 | the header spans the tree's width; the rows are exactly the laid-out rows that have cells, in order, each flushed and tagged with its depth (`EmittedFrom`); there are rows exactly when the root has children; each row has cells and spans the header's width in fit cells; row `j` lists, left to right, the nodes `j + 1` levels below the root, the first the root's children; no node lies deeper than the last row |
| TreeView.LaidGapless | static/tree_view.js:153-164 | no row without cells lies above a row with cells, so the emitted rows are the first rows |
| TreeView.RenderedEmpty | static/tree_view.js:153-164 | no row is emitted for the root alone, and at least one otherwise |
| TreeView.RenderedSpans | static/tree_view.js:148-164 | every emitted row is tagged with its depth, has cells, and spans exactly the header's columns, with padding only before a node cell or at the row's end |
| TreeView.RenderedGenerations | static/tree_view.js:136-164 | emitted row `j` lists exactly the nodes `j + 1` levels below the root, in order, and there are no nodes below the last row: each node below the root has one cell, in the row of its depth |
| TreeView.RenderedFirst | static/tree_view.js:153-164 | the first emitted row lists the root's children, in order |
| TreeView.FlushedEmits | static/tree_view.js:157 | a row, once its final padding is flushed, spans to where it ended and is fit to emit |

## Left out

- `getNodeId` (static/tree_data.js:18-20) has no member. A node is named by its id here, so it is the identity.
- `NatToDecimal`, `NextKeyIsFresh`, `Store.Added`, `Store.AddNode`: the counter is an unbounded natural. In the source, `++this.lastInternalId` (static/tree_data.js:76) stops advancing at 2^53. From then on keys repeat, and `Map.set` overwrites an existing child. So the freshness of the key, and the insertion of a new last child, hold only below 2^53 additions.
- `async` and `await`: every store function runs to completion in sequence. No interleaving of a render with store changes is modelled.
- The remote authority, persistence and logging (the server side, static/storage.js, static/log.js) and the wiring in static/app.js are not part of this model.
- `decorateCell`, the buttons, hover handlers and other DOM work are left out. A node cell carries its id, which is what `decorateCell` receives.
- The header row is reduced to its column span. The "Depth" header cell, the jQuery chain that appends the header cells to the table, and the `canvas` replacement are not modelled. Each emitted row's leading depth cell is the `depth` field of `TableRow`.
- A node deleted from its parent stays in `nodes`, as the `Map` object does for a caller that still holds it. It is only no longer reachable from the root.
- Rows are values in a sequence, not shared DOM objects. `PlaceChild` reads row `depth` after the recursive call, instead of holding the `<tr>` captured before it (static/tree_view.js:85). The recursion changes only deeper rows (`LayoutAbove`), so the two agree. Aliasing between rows is not captured.
- The layout is specified over `Store.Subtree`, a value snapshot of the store taken before the walk. The walk does not change the store.
- The lemmas about the layout (`LayoutShaped`, `PlacedChildShaped` and the rest) require rows shaped as `render` builds them (`Shaped`), starting from no rows. They say nothing about rows built otherwise.
- Termination of the recursive walk rests on a ghost bound on id length (`Store.idBound`), which every node created keeps.
- Row `k` of the table holds the nodes of depth `k + 1`. Below a leaf placed in row `d`, padding goes to every row from `d + 1` down (`rows[children_depth..]`, static/tree_view.js:97). The width of a tree counts the leaves strictly below the root, so a root alone has width 0.
