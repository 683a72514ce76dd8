# minweight_store: a verified model

This project models the two cores of the repository and proves what they are for.

**The paged Patricia index** (`src/minpatricia`). An index maps byte-string keys to positions and
stores no keys. Each page holds up to 339 slots and a preorder array of routes, and puts and
deletes edit these arrays in place. The proofs see the whole index as one binary Patricia tree
in which page boundaries are marks: pages are that tree cut into pieces (`Paging`, `Patricia`),
every algorithm is a method over page objects with real arrays (`NodePages.NodePage`,
`NodeStore.HeapNodeStore`), and each is proved to leave exactly the pages of the tree it should:
which page a put splits, promotes or enlarges and which pages a delete merges is said of the tree
alone (`Growth`, `Shrinking`). The result is that `IndexModule.Index` is a sorted map, for any number of pages and any depth.

**The log-structured store** (`src/minweight_store`). Records go to mapped log segments, a
checkpoint turns the live items into the snapshot of a new generation, and opening a directory
replays the log behind the snapshot. Segment bytes are changed in place
(`WalSegments.WalSegment`) and the directory is a value (`Disks.Disk`). Every operation also
returns, as a ghost result, the directories on its way, which lead in single steps (`DiskStep`: one
byte of one log file, one file created, replaced or removed) from the directory before to the one
after, and that one is said exactly. The result is that a crash at any of these steps recovers the map from before or from after
the interrupted call.

How the files build on each other:

- Keys as bit strings: `Keys`. The tree, its routes and its pages: `Patricia`, `Cartesian`,
  `PageTree`, `Paging`, `Alignment`, `Split`, `Canonical`, `Words`.
- Page objects and their heap: `NodePage`, `NodeStore`.
- The index algorithms: `Search`, `Boundary`, `PageBuilder`, `Growth`, `Insertion`, `Shrinking`, `MergeLimits`,
  `Deletion`,
  `Replacement`, `Accounting`, then iteration with `IterPath`, `Ranking`, `Ranges`, `Iteration`, and the whole in
  `Index`.
- Bytes: `Crc`, `Codec`, `WalFormat`, `CheckpointFiles`. Segments and logs: `WalSegment`, `WalLog`,
  `WalFiles`, `RecordStore`. Recovery and the store: `Recovery`, `Disks`, `StoreState`, `LiveItems`,
  `Checkpoints`, `CheckpointDamage`, `Store`, `Histories`. Where recovery ends: `RecoveryLimits`, `TornHeaders`,
  `CheckpointLimits`. The two cores together: `StoreIndex`.

`dafny verify dfyconfig.toml` checks all of it.

## Model

| member | source | states |
|---|---|---|
| Keys.GetDiffBitIsBit | src/minpatricia/include/minpatricia/node_page.h:214-225 | the bit the code reads at an index is the bit of the key's encoding: per byte a presence bit and eight value bits, zeros behind the end |
| Keys.DiffIsFirst | src/minpatricia/include/minpatricia/diff.h:63-97 | for two different keys, the recursively defined difference is the first index where the encodings differ, and the bit there decides their order (the loop itself, with its errors and bound, is CompareAndDiffBit) |
| Keys.CompareKeys | src/minpatricia/include/minpatricia/diff.h:26-53 | the sign is that of the byte-wise lexicographic order, and it is 0 exactly for equal keys |
| Keys.CheckKeySize | src/minpatricia/include/minpatricia/diff.h:19-24 | keys have at most 7281 bytes |
| Keys.CountLeadingZeroBits8 | src/minpatricia/include/minpatricia/diff.h:55-61 | the mask loop counts the leading zero bits of a byte |
| Keys.CompareAndDiffBit | src/minpatricia/include/minpatricia/diff.h:63-97 | exactly which inputs give which error; otherwise the sign of the comparison together with the first differing index, which is at most 65528 |
| Words.FieldsApart | src/minpatricia/include/minpatricia/node_page.h:52-101 | the three bit fields of a route word do not overlap, so the arithmetic model of the word agrees with or, shifts and masks |
| Words.MadeOf | src/minpatricia/include/minpatricia/node_page.h:63-98 | a packed route gives back its diff and left count, and tests the very bit of the key that its diff names |
| Words.CountInPlace | src/minpatricia/include/minpatricia/node_page.h:87-88 | counting the left count up or down in the packed word touches no other field |
| Words.RoutesFit | src/minpatricia/include/minpatricia/node_page.h:52-101 | every route of every page of a readable tree has a diff of at most 65528 and a left count between 1 and the page size |
| Words.RoutesPack | src/minpatricia/include/minpatricia/node_page.h:63-85 | packing the routes of a page that fits loses nothing |
| Words.RepRoundTrip | src/minpatricia/include/minpatricia/node_page.h:17-38 | slots and their tagged words determine each other, and a word is made exactly for values below the tag |
| Canonical.MiddleKey | src/minpatricia/include/minpatricia/diff.h:63-97 | of three keys in order, the two neighbouring diffs differ and the smaller is the diff of the outer pair |
| Canonical.UniqueMinimum | src/minpatricia/include/minpatricia/index.h:586-614 | the diff of two keys of a sorted run is the unique minimum of the neighbouring diffs between them |
| Patricia.BestMatch | src/minpatricia/include/minpatricia/index.h:162-189 | for any key, stored or not, no stored key shares a longer encoded prefix with it than the record its bits lead to |
| Patricia.BestExact | src/minpatricia/include/minpatricia/index.h:191-205 | a key is stored exactly when the record its bits lead to carries it, and that record's position is its value |
| Patricia.FlatSorted | src/minpatricia/include/minpatricia/index.h:259-266 | reading the tree from left to right lists the records in increasing key order |
| Patricia.InsertContents | src/minpatricia/include/minpatricia/index.h:645-728 | inserting an absent key into the one tree adds exactly that binding (page edits and replacement are InsertAtPath and ReplaceAtPath) |
| Patricia.InsertValid | src/minpatricia/include/minpatricia/index.h:645-728 | inserting a key where it leaves the record reached keeps the tree valid: every node still tests the first differing bit of its two sides |
| Patricia.DeleteContents | src/minpatricia/include/minpatricia/index.h:1256-1284 | deleting a stored key from the one tree removes exactly that binding (absent keys and page edits are DeleteFrom) |
| Patricia.DeleteValid | src/minpatricia/include/minpatricia/index.h:1256-1284 | deletion keeps the tree valid, and empties it exactly when it held one record |
| Patricia.ReplaceContents | src/minpatricia/include/minpatricia/index.h:645-728 | giving the record of a stored key a new position rebinds exactly that key |
| Patricia.RetargetExact | src/minpatricia/include/minpatricia/index.h:1671-1710 | moving the record reached to another position rebinds its stored key and nothing else exactly when the new position carries the same key |
| Patricia.RetargetToOtherKey | src/minpatricia/include/minpatricia/index.h:1671-1710 | a concrete index and a position with another key for which the stored key is lost |
| Alignment.ValidRising | src/minpatricia/include/minpatricia/index.h:586-614 | tested bits strictly increase on every way down a page, so the minimum of any range of diffs is unique |
| Alignment.ChildAligned | src/minpatricia/include/minpatricia/index.h:754-812 | every diff inside a child page, through all levels below it, is greater than the diffs that border its slot in the parent |
| Alignment.AdjacentDiff | src/minpatricia/include/minpatricia/index.h:521-550 | diff i of a page is the first difference of the last key before and the first key behind its gap, the keys that the boundary caches of child pages name |
| Alignment.DeleteDropsLarger | src/minpatricia/include/minpatricia/index.h:1344-1386 | the diff that a deletion removes is the larger of the two that border the slot |
| Cartesian.RoutesAreCart | src/minpatricia/include/minpatricia/index.h:616-643 | the routes of a rising page are those of the Cartesian tree of its diffs, in preorder, each right side at its node's index plus left count |
| Cartesian.BuildCartesian | src/minpatricia/include/minpatricia/index.h:586-614 | for any diffs, the stack algorithm yields their minimum-rooted tree |
| Cartesian.WritePreorderRoutes | src/minpatricia/include/minpatricia/index.h:616-643 | the routes written are those of that tree, and the rest of the array is untouched |
| PageTree.InsertRoutes | src/minpatricia/include/minpatricia/node_page.h:273-342 | entry by entry, what inserting one record does to the routes of a page: one new route, later ones shifted, one added to the left counts passed on the left |
| PageTree.DeleteRoutes | src/minpatricia/include/minpatricia/node_page.h:344-399 | entry by entry, what deleting a slot does: the parent's route leaves, later ones move up, one is taken off the left counts passed, which are above one |
| Canonical.HistoryFree | src/minpatricia/include/minpatricia/index.h:427-457 | two valid trees over the same records are the same tree: the shape does not depend on how the index came about |
| Canonical.RoutesAreRebuilt | src/minpatricia/include/minpatricia/index.h:427-502 | every page has exactly the routes that rebuilding writes from the diffs recomputed from its keys |
| Canonical.InsertIsRebuild | src/minpatricia/include/minpatricia/node_page.h:273-342 | the page after an in-place insertion has exactly the routes that a rebuild for the keys with the new one would write |
| Canonical.DeleteIsRebuild | src/minpatricia/include/minpatricia/node_page.h:344-399 | the page after an in-place deletion has exactly the routes a rebuild for the remaining keys would write; its slots and diffs lose the deleted slot and the larger bordering diff |
| NodePages.NodePage.LookupRouteOnly | src/minpatricia/include/minpatricia/node_page.h:122-144 | the loop over the route array ends at the slot the bits of the key lead to, and fails only on an empty page |
| NodePages.NodePage.RouteDiffs | src/minpatricia/include/minpatricia/node_page.h:146-180 | reading the preorder array back gives the diffs in slot order, within the fixed stack |
| NodePages.NodePage.InsertSlotAbovePath | src/minpatricia/include/minpatricia/node_page.h:227-271 | finds a slot exactly when a route on the key's path tests a later bit than diff, and then the slot where the record belongs |
| NodePages.NodePage.InsertRouteAt | src/minpatricia/include/minpatricia/node_page.h:332-342 | the shift, the new route and the left counts of the listed ancestors, entry by entry, in the array |
| NodePages.NodePage.InsertRoute | src/minpatricia/include/minpatricia/node_page.h:273-330 | the in-place insertion leaves exactly the routes of the page with the new record |
| NodePages.NodePage.DeleteRouteAt | src/minpatricia/include/minpatricia/node_page.h:389-399 | the shift down and the left counts of the listed ancestors, entry by entry, in the array |
| NodePages.NodePage.DeleteRoute | src/minpatricia/include/minpatricia/node_page.h:344-387 | the in-place deletion leaves exactly the routes of the page without the slot, although only left counts above one are taken down |
| NodePages.NodePage.IsDirectRoutePair | src/minpatricia/include/minpatricia/node_page.h:401-427 | true exactly when the node at this diff has just the two slots around it below it |
| NodePages.NodePage.InsertRecord | src/minpatricia/include/minpatricia/index.h:814-871 | routes, slots and boundaries of a page updated in place are those of the page with the record |
| NodePages.NodePage.RemoveSlot | src/minpatricia/include/minpatricia/index.h:1344-1386 | routes and slots of a page updated in place are those of the page without the slot; the last slot leaves it empty |
| NodePages.NodePage.Write | src/minpatricia/include/minpatricia/index.h:459-502 | a page written anew holds the given slots and boundaries and the Cartesian routes of the diffs |
| NodeStore.HeapNodeStore.Alloc | src/minpatricia/include/minpatricia/node_store.h:53-69 | hands out the id freed last, or else the next new one, for an empty page, changing no other page; it fails exactly when ids run out |
| NodeStore.HeapNodeStore.Free | src/minpatricia/include/minpatricia/node_store.h:71-80 | removes exactly the page, refuses exactly the root and ids that are not live, and its id is the next one handed out |
| NodeStore.HeapNodeStore.LiveCount | src/minpatricia/include/minpatricia/node_store.h:82-82 | the counter is the number of live pages despite id reuse, and the root is one of them |
| Accounting.CountRecords | src/minpatricia/include/minpatricia/index.h:405-425 | counts every record below a page once |
| Accounting.PagesOwned | src/minpatricia/include/minpatricia/index.h:405-425 | the pages form a tree: each page but the topmost is held by exactly one slot of one page |
| Split.HeavyNode | src/minpatricia/include/minpatricia/index.h:1144-1216 | every Cartesian tree of at least four slots has a subtree of more than a third and at most two thirds of them |
| Split.ChooseSplitRange | src/minpatricia/include/minpatricia/index.h:1144-1216 | exactly which range is chosen: at an end of the index the largest subtree beside the new slot, else the largest of a third to a half of the slots, else the one nearest to half of them, of equal ones the first in preorder; from four slots on it is a whole subtree of 2 to n - 2 slots, so the middle fallback is never reached |
| Split.ChooseEdgeSplitRange | src/minpatricia/include/minpatricia/index.h:1218-1254 | the first of the largest subtrees that do not hold the insertion slot, or nothing when there is none |
| Split.ChosenBalanced | src/minpatricia/include/minpatricia/index.h:1144-1216 | away from the ends of the index, whatever range is to be chosen covers about a third to two thirds of the slots |
| PageBuilder.DiffBetweenReps | src/minpatricia/include/minpatricia/index.h:521-550 | neighbouring slots of a valid page never compare equal or unsorted, and the result is the diff between them |
| PageBuilder.BuildDiffs | src/minpatricia/include/minpatricia/index.h:504-519 | the diffs of a page are recomputed from the boundary keys of its slots |
| PageBuilder.WriteNodeWithDiffs | src/minpatricia/include/minpatricia/index.h:1046-1070 | exactly this page is rewritten, to the page of the given tree |
| PageBuilder.WriteNode | src/minpatricia/include/minpatricia/index.h:1072-1088 | a page written from any number of slots ends with at most 339, the chosen parts moved to new pages, exactly as `SplitsInto` says of the tree; no key moved; it fails only when page ids run out; the mutual recursion terminates |
| PageBuilder.SplitAndWriteNodeAt | src/minpatricia/include/minpatricia/index.h:1094-1142 | the same for splitting at an insertion slot, which is followed through the parts moved out; a failed split of a page one slot too large changes nothing |
| Boundary.PropagateBoundary | src/minpatricia/include/minpatricia/index.h:910-957 | after a page changed, the walk up leaves every page above with the boundaries and routes it must have, although it stops early and writes only first and last positions |
| Search.Walk | src/minpatricia/include/minpatricia/index.h:645-728 | the walk through the pages records the path to the record that the bits of the key lead to |
| Search.InsertSlotFromPath | src/minpatricia/include/minpatricia/index.h:730-752 | the page on the path and the slot in it where the new record belongs |
| Ranking.InsertionPlace | src/minpatricia/include/minpatricia/index.h:730-752 | at that page and slot every record before is smaller and every record behind is greater than the new key |
| Ranking.EdgeIsEnd | src/minpatricia/include/minpatricia/index.h:887-908 | the slot is at an end of its page and of all pages above exactly when the new key sorts before all stored keys or behind all of them |
| Insertion.InsertWithRoom | src/minpatricia/include/minpatricia/index.h:814-871 | with room in the page, the stored pages become those of the tree with the record |
| Insertion.PathEdgeInsertSlot | src/minpatricia/include/minpatricia/index.h:887-908 | the slot is reported exactly when it is at the same end of its page and of every page above; `Ranking.EdgeIsEnd` says what that means for the index |
| Insertion.PromoteSibling | src/minpatricia/include/minpatricia/index.h:959-1044 | an overfull child cut at its root becomes two pages of the parent, all within capacity; failing changes nothing |
| Insertion.InsertPromoting | src/minpatricia/include/minpatricia/index.h:754-812 | insertion by promotion delivers the tree of a plain insertion, page boundaries aside |
| Insertion.InsertSplitting | src/minpatricia/include/minpatricia/index.h:754-812 | insertion by splitting the full page delivers the same, and the page is split just as `SplitsInto` says, at the slot of an end of the index or at none |
| Insertion.InsertAtPath | src/minpatricia/include/minpatricia/index.h:754-812 | leaves exactly the pages that `Growth.Enlarged` says: the record in its page while that has room; a full page below one with room cut in two, side by side in the page above; any other full page with its chosen part in a new page; it fails only when page ids run out, and then nothing changed |
| Growth.PromotionShape | src/minpatricia/include/minpatricia/index.h:959-1044 | a full page below one with room leaves the page above with exactly one slot more: the two halves of the overfull page side by side, cut at its only least diff; no page is deeper than before |
| Growth.SplitShape | src/minpatricia/include/minpatricia/index.h:1090-1142 | a full page that is split keeps all slots but those of the part moved out, which it holds as a child page; away from the ends of the index the part has 114 to 226 slots |
| Growth.EnlargedLevels | src/minpatricia/include/minpatricia/index.h:754-812 | the pages get deeper by at most one level, and only when the page and the one above it are full |
| Replacement.ReplaceAtPath | src/minpatricia/include/minpatricia/index.h:645-728 | the record at the end of the path gets its new position, and so do all boundary caches that named it |
| Deletion.DeleteAtIncremental | src/minpatricia/include/minpatricia/index.h:1344-1386 | exactly this page changes, to the page without the slot, boundaries included |
| Deletion.MergeChildIntoParent | src/minpatricia/include/minpatricia/index.h:1422-1471 | leaves exactly the parent with the child's slots in place of the child page; the same index, capacity kept |
| Deletion.CanJoin | src/minpatricia/include/minpatricia/index.h:1473-1534 | two neighbours can be joined exactly when they are child pages, a direct pair, and fit into one page |
| Deletion.MergeSiblings | src/minpatricia/include/minpatricia/index.h:1536-1638 | leaves exactly the parent in which the two neighbouring pages are one page with the slots of both; the same index, capacity kept |
| Deletion.RemoveMergedParentRep | src/minpatricia/include/minpatricia/index.h:1640-1669 | exactly the parent changes: the slot and the diff beside it leave it |
| Deletion.MergeChildWithSibling | src/minpatricia/include/minpatricia/index.h:1473-1534 | merges exactly when one of the neighbours can be joined, with the larger of two and with the left one of two of equal size; otherwise nothing changes |
| Deletion.RebuildParentAfterChildBoundary | src/minpatricia/include/minpatricia/index.h:1388-1400 | after the first or last key of a child was deleted, updating two positions leaves the parent as a rebuild would |
| Deletion.SettleChild | src/minpatricia/include/minpatricia/index.h:1314-1341 | which merge happens at which sizes: absorbed when all slots fit into the parent, else joined when small and joinable, else left; always the same index |
| Deletion.DeleteFrom | src/minpatricia/include/minpatricia/index.h:1256-1284 | deletes exactly when the key is stored and returns its position; otherwise nothing changes; what is left is the tree without the record, on exactly the pages that `Shrinking.Removed` says |
| Deletion.DeleteFromChild | src/minpatricia/include/minpatricia/index.h:1286-1342 | the same through a child page: one that became empty is freed and loses its slot, any other is settled |
| Shrinking.RemovedTight | src/minpatricia/include/minpatricia/index.h:1286-1342 | after a deletion no page that remains on the way to the record fits into the one above it, through all levels |
| Shrinking.SettledLeaves | src/minpatricia/include/minpatricia/index.h:1314-1341 | a child that lost a record is absorbed, or joined when it has fewer than ten slots and a fitting neighbour, or else left, and then it neither fits above nor is so small beside such a neighbour |
| MergeLimits.SmallAgain | src/minpatricia/include/minpatricia/index.h:1314-1341 | after a deletion a page is left small beside one that it fits with exactly when it was just joined, the two had fewer than ten slots in all, and with a child page beside them they are one part of the page above and fit into one |
| MergeLimits.SmallBesideFitting | src/minpatricia/include/minpatricia/index.h:1323-1331 | a full page with three child pages of two, three and two records: a deletion from the second joins it with the first, and the joined page of four slots stays beside the third |
| Deletion.CompressRoot | src/minpatricia/include/minpatricia/index.h:1402-1420 | the root takes over the slots of a child page that is all it holds, again and again, and the tree stays the same |
| IndexModule.Index.constructor | src/minpatricia/include/minpatricia/index.h:363-384 | a new index is valid and empty |
| IndexModule.Index.Open | src/minpatricia/include/minpatricia/index.h:363-384 | over the pages of a tree, the index stands for it and its count is right |
| IndexModule.Index.Len | src/minpatricia/include/minpatricia/index.h:159-159 | the size of the map |
| IndexModule.Index.LiveNodes | src/minpatricia/include/minpatricia/index.h:160-160 | the number of pages of the tree, none shared and none dangling |
| IndexModule.Index.Probe | src/minpatricia/include/minpatricia/index.h:162-189 | found exactly for a nonempty map; for a stored key its position, and otherwise the position of some other stored key |
| IndexModule.Index.Get | src/minpatricia/include/minpatricia/index.h:191-205 | the lookup of the map for any key; the only error is an oversized key |
| IndexModule.Index.Put | src/minpatricia/include/minpatricia/index.h:207-223 | binds the key and touches no other; replaced and old position are those of the map; the pages become exactly those of `Growth.PutPages`; no layout error exists, and a failure changes nothing |
| IndexModule.Index.InsertOrReplace | src/minpatricia/include/minpatricia/index.h:645-728 | the same below the record count: insert and replace, all overflow ways included, with the new page under the next id |
| IndexModule.Index.Delete | src/minpatricia/include/minpatricia/index.h:225-240 | removes the key, if stored, and touches no other; deleted and position are those of the map; the pages become exactly those of `Shrinking.DeletePages`, merges and root included |
| IndexModule.Index.Retarget | src/minpatricia/include/minpatricia/index.h:1671-1710 | succeeds exactly when the record the key leads to is at the old position, and then that record has the new one; the map has its key rebound when the new position carries that key; failures change nothing |
| IndexModule.Index.RecordsMayChange | src/minpatricia/include/minpatricia/index.h:394-403 | the index and its map do not depend on records it does not refer to |
| IndexModule.OrderSorted | src/minpatricia/include/minpatricia/index.h:259-266 | the records are listed in key order, one for each key of the map |
| IndexModule.RangeOfMap | src/minpatricia/include/minpatricia/index.h:269-360 | what a range iteration lists is exactly the part of the map within the bounds, in key order |
| IndexModule.Index.Ascend | src/minpatricia/include/minpatricia/index.h:259-266 | visits the whole map in key order until the caller stops |
| IndexModule.Index.AscendRange | src/minpatricia/include/minpatricia/index.h:269-282 | visits exactly the keys from ge up to below lt, in order, each once, until the caller stops |
| IndexModule.Index.AscendLessThan | src/minpatricia/include/minpatricia/index.h:285-295 | the same for all keys below the pivot |
| IndexModule.Index.AscendGreaterOrEqual | src/minpatricia/include/minpatricia/index.h:298-308 | the same for all keys from the pivot on |
| IndexModule.Index.Descend | src/minpatricia/include/minpatricia/index.h:311-318 | visits the whole map in reverse key order until the caller stops |
| IndexModule.Index.DescendRange | src/minpatricia/include/minpatricia/index.h:321-334 | visits exactly the keys from le down to above gt, in reverse order, each once, until the caller stops |
| IndexModule.Index.DescendLessOrEqual | src/minpatricia/include/minpatricia/index.h:337-347 | the same for all keys up to the pivot |
| IndexModule.Index.DescendGreaterThan | src/minpatricia/include/minpatricia/index.h:350-360 | the same for all keys above the pivot |
| IterPaths.IterPath.Push | src/minpatricia/include/minpatricia/index.h:85-95 | the sixteen inline frames and the overflow behave as one stack |
| IterPaths.IterPath.Truncate | src/minpatricia/include/minpatricia/index.h:111-118 | cutting it back to any length cuts that one stack |
| Iteration.NextPath | src/minpatricia/include/minpatricia/index.h:1951-1971 | from the record at place r the path moves to place r + 1 of the key order, through any number of pages, or reports the end |
| Iteration.PrevPath | src/minpatricia/include/minpatricia/index.h:1973-1993 | the same to place r - 1 |
| Iteration.SeekGreaterOrEqual | src/minpatricia/include/minpatricia/index.h:1712-1758 | the path stands on the first record whose key is not smaller, if there is one |
| Iteration.SeekLessOrEqual | src/minpatricia/include/minpatricia/index.h:1760-1806 | the path stands on the last record whose key is not greater, if there is one |
| Iteration.AscendWithin | src/minpatricia/include/minpatricia/index.h:2021-2039 | seek and steps together visit exactly the range, in key order |
| Iteration.DescendWithin | src/minpatricia/include/minpatricia/index.h:2042-2060 | the same in reverse |
| Ranges.AscendingExact | src/minpatricia/include/minpatricia/index.h:2021-2039 | a loop that stops at the first key past the bound visits all keys of the range |
| Ranges.DescendingExact | src/minpatricia/include/minpatricia/index.h:2042-2060 | the same from the other end |
| Crc32.CRC32Update | src/minweight_store/store.cc:147-171 | the table-driven update equals the bit-by-bit CRC of section 8 of RFC 1952, for any data and start value; which CRC that is, CheckValue and Residue say |
| Crc32.Chained | src/minweight_store/store.cc:163-180 | updates one after the other equal one update over the concatenation |
| Crc32.ByteChanged | src/minweight_store/store.cc:163-171 | changing any one byte of data of any length changes its CRC |
| Crc32.CheckValue | src/minweight_store/store.cc:163-171 | the CRC of the digits 123456789 is 0xcbf43926, the check value of CRC-32 |
| Crc32.Residue | src/minweight_store/store.cc:163-171 | for all data, the CRC over them and their own CRC, lowest byte first, is 0x2144df1c |
| Codec.LoadStore | src/minweight_store/store.cc:106-136 | a stored number is loaded again |
| Codec.LowestFirst | src/minweight_store/store.cc:121-136 | byte i of a stored number is its digit i to the base 256 |
| Codec.ValueIs | src/minweight_store/store.cc:106-119 | a byte read bit by bit is the number it is |
| Codec.PositionParts | src/minweight_store/store.cc:186-204 | a position exists exactly for file numbers from 1 below 2^33 and offsets below 2^30, is the number in 30 bits below the file number, gives both back, stays below the child tag and is never a snapshot position |
| Codec.PositionsOrdered | src/minweight_store/store.cc:186-204 | positions order like file number and offset |
| WalFormat.ReadBack | src/minweight_store/store.cc:879-952 | a record laid out in a segment is read back with its operation, key and value |
| WalFormat.EncodedParts | src/minweight_store/store.cc:890-901 | a record is laid out as operation, key length, value length, CRC, key, value |
| WalFormat.DamageDetected | src/minweight_store/store.cc:915-952 | a record of any length with one byte of its operation, CRC, key or value changed is not read as a record |
| WalFormat.RecordExact | src/minweight_store/store.cc:915-952 | what is read at an offset with its CRC is a legal record laid out there, and every such record is read |
| WalFormat.RecordCrcIs | src/minweight_store/store.cc:173-180 | the CRC of a record is one CRC over its operation, lengths, key and value |
| WalFormat.HeaderExact | src/minweight_store/store.cc:1026-1039 | a segment loads exactly when it starts with magic, version, any four bytes and a used offset within it |
| WalFormat.AppendAdds | src/minweight_store/store.cc:879-906 | appending adds exactly one record at the old end and keeps all others |
| WalFormat.EntryReadable | src/minweight_store/store.cc:915-995 | every replayed record is read back at its offset, with or without its CRC |
| WalSegments.WalSegment.Open | src/minweight_store/store.cc:808-872 | a zero header is initialised, any other must load, and nothing else changes |
| WalSegments.WalSegment.Append | src/minweight_store/store.cc:879-906 | succeeds exactly when unsealed with room; writes exactly the record and the used offset; until the latter, after every single byte, the part in use is untouched |
| WalSegments.WalSegment.RecordAtOffset | src/minweight_store/store.cc:915-952 | the record at an offset, or the error, of the specification |
| WalSegments.WalSegment.Replay | src/minweight_store/store.cc:955-995 | hands out the records up to the first that cannot be read; strict fails there, point-in-time cuts there, and a replay that read all of them ends on the used offset |
| WalLog.LogReadable | src/minweight_store/store.cc:908-952 | every record of the log of all segments is read back at its position |
| WalLog.LogRising | src/minweight_store/store.cc:186-204 | positions rise along the log, so none is used twice |
| WalFiles.TornShows | src/minweight_store/store.cc:879-906 | files whose bytes behind the used part are anything at all open to the log from before |
| RecordStores.SegmentedRecordStore.Append | src/minweight_store/store.cc:1130-1141 | succeeds exactly when the active or a new segment has room; the segments become exactly those of `WalFiles.WithRecord`, so a record goes to the active segment if it fits there; the log gains exactly the record; what was readable stays so; single steps lead from the files before to those after, and all but the last state open to the log from before, the last to the one from after; the error says whether room or file numbers ran out |
| RecordStores.SegmentedRecordStore.DeleteRecord | src/minweight_store/store.cc:1143-1153 | the same for a tombstone |
| RecordStores.SegmentedRecordStore.FittingAccepted | src/minweight_store/store.cc:1130-1153 | a record that fits into an empty segment is never refused while file numbers are left |
| RecordStores.SegmentedRecordStore.Rollover | src/minweight_store/store.cc:1364-1381 | the next file becomes active and empty, all others are sealed and unchanged; it fails exactly when file numbers run out |
| RecordStores.SegmentedRecordStore.AddSnapshotRecord | src/minweight_store/store.cc:1155-1165 | the record gets the next snapshot position, which no log record has |
| RecordStores.SegmentedRecordStore.ItemAt | src/minweight_store/store.cc:1167-1214 | the key and value a position stands for: a live snapshot record or a readable put |
| RecordStores.SegmentedRecordStore.ReplayAll | src/minweight_store/store.cc:1216-1270 | the index is the fold of the records in file order up to the first unreadable one and never past it; the segments left are exactly those of `Recovery.RepairedView`, undamaged and holding just that log; all segment states on the way are listed |
| RecordStores.SegmentedRecordStore.Open | src/minweight_store/store.cc:1088-1128 | opens exactly when every file has a number and loads, and names the error otherwise; single steps lead from the files given to those of the segments, and each state opens to the same segments |
| RecordStores.SegmentedRecordStore.ResetToSnapshot | src/minweight_store/store.cc:1298-1323 | goes on with file 1 of the new generation and without snapshot records |
| CheckpointFiles.ManifestRoundTrip | src/minweight_store/store.cc:575-647 | a written manifest is read back |
| CheckpointFiles.SnapshotRoundTrip | src/minweight_store/store.cc:649-798 | a finished snapshot is read back item by item |
| CheckpointFiles.SnapshotReadable | src/minweight_store/store.cc:649-798 | a written snapshot can be read exactly when it holds fewer than 2^30 items |
| CheckpointDamage.ManifestExact | src/minweight_store/store.cc:575-612 | what is read as a manifest starts with magic, version, generation and their CRC, and everything that does is read |
| CheckpointDamage.ManifestDamage | src/minweight_store/store.cc:602-610 | a manifest with any one of its 32 bytes changed is refused as corrupt |
| CheckpointDamage.SnapshotExact | src/minweight_store/store.cc:714-798 | what is read as a snapshot starts with magic, version, count, generation and the items with their CRCs, and everything that does is read |
| CheckpointDamage.SnapshotDamage | src/minweight_store/store.cc:781-790 | a snapshot with a byte of any item's CRC, key or value changed, or of its magic, version or generation, is refused as corrupt |
| CheckpointDamage.ItemLayout | src/minweight_store/store.cc:670-692 | an item is laid out as key length, value length, the CRC over these with key and value, key, value |
| CheckpointDamage.DamagedManifest | src/minweight_store/store.cc:1442-1463 | so a directory with such a manifest does not load |
| CheckpointDamage.DamagedSnapshot | src/minweight_store/store.cc:1474-1483 | nor does one with such a snapshot of its generation |
| CheckpointDamage.MissingSnapshot | src/minweight_store/store.cc:714-727 | nor one that lacks the snapshot its manifest calls for |
| Recovery.LogResolves | src/minweight_store/store.cc:1216-1270 | after replaying any log, every indexed position is a readable put of its key with the latest value |
| Recovery.ReplayedCut | src/minweight_store/store.cc:1216-1270 | the segments left by a replay that cut a file are undamaged and hold the log replayed |
| StoreState.RunningResolves | src/minweight_store/store.cc:1604-1626 | in a running store every indexed position resolves to a put of that key with its latest value, snapshot positions and log positions apart |
| LiveItems.RemoveOld | src/minweight_store/store.cc:482-557 | leaves exactly the directory without the files of other generations; single removals lead there, and at each of them the files of the generation to keep are untouched |
| Checkpoints.SwitchingRecovers | src/minweight_store/store.cc:1839-1863 | after the snapshot, after the directory and after the manifest the same map is recovered; then the manifest's generation has its complete snapshot and an empty log |
| Checkpoints.ResetRecovers | src/minweight_store/store.cc:1298-1323 | the new generation's first file, in any state of its creation, recovers the snapshot |
| Stores.Store.Put | src/minweight_store/store.cc:1584-1602 | succeeds exactly for keys of legal size whose record fits; then exactly this key has the value, and otherwise nothing changed; the directory is exactly the one with the record, or, when the record left more than four segments, the checkpoint of the next generation, so at most four are open afterwards; single steps lead from the directory before to the one after, and a crash at any of them recovers the map from before up to some step and the one from after behind it |
| Stores.Store.Get | src/minweight_store/store.cc:1604-1626 | the latest value of the key, or nothing; the only error is an oversized key |
| Stores.Store.Delete | src/minweight_store/store.cc:1628-1664 | removes exactly this key; reports exactly whether it was stored; when the tombstone does not fit, the entry is restored; directory, checkpoint, steps and crashes as for Put |
| Stores.Store.Len | src/minweight_store/store.cc:1575-1582 | the number of keys |
| Stores.Store.CollectLiveItems | src/minweight_store/store.cc:1794-1815 | every live key with its latest value, once, in key order |
| Stores.Store.CheckpointIfNeeded | src/minweight_store/store.cc:1832-1837 | with at most four segments nothing happens; with more, exactly what Checkpoint does |
| Stores.Store.Checkpoint | src/minweight_store/store.cc:1839-1880 | never fails and keeps the map; leaves exactly the manifest of the next generation, its snapshot of the live items in key order, and one empty WAL file; single steps lead from the directory before to the one after, and each directory on the way recovers the same map |
| Stores.Store.Close | src/minweight_store/store.cc:1545-1573 | without the checkpoint leaves the directory as it is, with it exactly what a checkpoint leaves; it recovers the map, and so does every directory of the single steps that lead there |
| Stores.Store.Open | src/minweight_store/store.cc:1442-1515 | opens exactly when manifest, snapshot and headers load, under the strict policy also only without damage, and names the error otherwise; the store holds what the directory recovers, and the directory is exactly the repaired one without other generations; single steps lead there; opening an undamaged directory is crash-safe, and so is repairing one without records behind the damage |
| Stores.OpenedClean | src/minweight_store/store.cc:1489-1501 | with a manifest, nothing of other generations is left after opening, and the snapshot is untouched |
| Stores.EmptyDirectory | src/minweight_store/store.cc:1442-1515 | an empty directory opens to the empty store in generation 1 with one empty WAL file |
| Stores.Store.Durable | src/minweight_store/store.cc:1442-1515 | between operations the directory recovers, undamaged, what the store holds |
| Stores.Store.TornDurable | src/minweight_store/store.cc:879-906 | so it does with any bytes behind the used part of any file |
| Stores.LoadSnapshotRecords | src/minweight_store/store.cc:1778-1792 | item i gets snapshot position i + 1 and is indexed there; it fails exactly for too many items |
| Histories.Run | docs/design/minweight_store.md:183 | for any sequence of puts and deletes: each is acknowledged exactly when it is acceptable in the directory and map it meets, and leads exactly to the directory with its record, or to the checkpoint behind the fifth segment; single steps lead from the directory at the start through those between the calls to the one at the end, and the store ends with the outcome of the acknowledged calls |
| Histories.CrashesRecoverPrefixes | docs/design/minweight_store.md:183 | crashes at any two points of such a run recover the outcomes of contiguous prefixes of its calls, each ending just before or after the call it cut off, and the later crash never recovers less |
| Histories.OpenTwice | src/minweight_store/store.cc:1442-1515 | whatever a first opening recovered, the directory it leaves opens again under the strict policy to the same map |
| RecoveryLimits.PrefixExactly | src/minweight_store/store.cc:1026-1039 | with stale used offsets the log replayed is a prefix of the log written exactly when no file that ends cleanly at a stale offset has replayed records behind it |
| RecoveryLimits.StaleHeaderSkipsAWrite | src/minweight_store/store.cc:1216-1270 | two files with one put each and the first header stale: the second write is recovered without the first |
| RecoveryLimits.CrashInsideRecovery | src/minweight_store/store.cc:1226-1233 | for a crash at any point of the removal behind the damaged file: what the next opening replays, and that it is the same at every such point exactly when no file behind has a record |
| RecoveryLimits.CrashedRecoveryBringsBack | src/minweight_store/store.cc:1226-1233 | a directory that recovers to the empty map, and to a map with one key after a crash in its recovery |
| TornHeaders.MixedOffset | src/minweight_store/store.cc:1048-1051 | when only the k low bytes of the used offset are written, a replay reads the log from before or from after exactly when these bytes did not get smaller |
| TornHeaders.MixedOffsetStrict | src/minweight_store/store.cc:1048-1051 | with the offset in between, the strict policy accepts exactly the old and the new offset |
| TornHeaders.CarryLosesRecords | src/minweight_store/store.cc:1048-1051 | a segment with one put that ends at 0x10ff and a second put that ends at 0x110d: after one byte of the new offset a replay reads neither log |
| TornHeaders.HalfHeaderOpens | src/minweight_store/store.cc:1041-1046 | a new file whose header is written up to byte j opens exactly when nothing or everything up to its last byte that is not zero is written |
| Checkpoints.SwitchedLoads | src/minweight_store/store.cc:714-798 | the directory a checkpoint leaves loads exactly when the items are fewer than 2^30 |
| CheckpointLimits.CheckpointTooLarge | src/minweight_store/store.cc:1839-1880 | a directory that recovers to 2^30 items, whose checkpoint cannot be opened |
| StoreIndex.KeysAreRead | src/minweight_store/store.cc:1167-1184 | the keys a paged index over a resolving store compares are those the store reads at its positions, and no two keys share one |
| StoreIndex.KeysStayRead | src/minweight_store/store.cc:1130-1153 | they are read just the same after records were added |
| StoreIndex.NewPosition | src/minweight_store/store.cc:1130-1141 | the position of a record just written is not in the index and fits into it |
| StoreIndex.PutIndexed | src/minweight_store/store.cc:1584-1602 | the paged index and the map of positions stay the same map when a new record enters both; it reports the position replaced, and fails only when page ids run out, with nothing changed |
| StoreIndex.DeleteIndexed | src/minweight_store/store.cc:1628-1664 | and when a key leaves both; the only error is an oversized key |
| StoreIndex.GetIndexed | src/minweight_store/store.cc:1604-1626 | a lookup in the paged index is a lookup in the map of positions |
| StoreIndex.ReplayIndexed | src/minweight_store/store.cc:1216-1270 | replaying a log into the paged index is replaying it into the map of positions; it fails only when page ids run out |
| StoreIndex.LogReplayable | src/minweight_store/store.cc:1216-1270 | the log behind a snapshot has what that asks for: legal keys, and rising positions that the snapshot does not use |
| StoreIndex.ListIndexed | src/minweight_store/store.cc:1794-1815 | iterating over the paged index lists every key with its position, once, in key order |
| StoreIndex.ListIsCollected | src/minweight_store/store.cc:1794-1815 | the items collected for a checkpoint have exactly the keys that this iteration lists, in the same order |

## Findings

Properties that the code does not have in general, each with an input and the exact condition.

| where | input | exact condition | members |
|---|---|---|---|
| docs/design/minweight_store.md:183 promises that recovery gives a contiguous prefix of the writes; src/minweight_store/store.cc:1026-1039 trusts each header's used offset | two files with one put each, the first header as it was before its put: the second write is recovered without the first | the log replayed is a prefix exactly when no file that ends cleanly at a stale offset has replayed records behind it | `RecoveryLimits.PrefixExactly`, `RecoveryLimits.StaleHeaderSkipsAWrite` |
| src/minweight_store/store.cc:1226-1233: a recovery cuts the damaged file, then unlinks the files behind it one by one, and ignores failed unlinks | the first file damaged, a good put in the second: after a crash between the two steps the put comes back | the recovered log is the same at every crash point exactly when no file behind the damaged one has a record to replay | `RecoveryLimits.CrashInsideRecovery`, `RecoveryLimits.CrashedRecoveryBringsBack` |
| src/minweight_store/store.cc:1048-1051 writes the used offset as eight bytes | a put that ends at 0x10ff, then one to 0x110d: after one byte the header says 0x100d, and a point-in-time replay loses the first put | a point-in-time replay of a split store reads the log from before or from after exactly when the bytes written so far, as a number, did not get smaller; a strict one then still fails unless the offset is the old or the new one | `TornHeaders.MixedOffset`, `TornHeaders.MixedOffsetStrict`, `TornHeaders.CarryLosesRecords` |
| src/minweight_store/store.cc:1041-1046 writes magic, version and used offset one after the other | a crash after any part but all of it: the next opening fails on this file | a half-written header opens exactly when none of its 18 bytes up to the last one that is not zero are written, or all are | `TornHeaders.HalfHeaderOpens` |
| src/minweight_store/store.cc:1839-1880 writes a snapshot of any number of items; src/minweight_store/store.cc:744-747 refuses 2^30 of them | a snapshot of 2^30 - 1 items and one put more | the directory loads after the checkpoint exactly when there are fewer than 2^30 live items | `Checkpoints.SwitchedLoads`, `CheckpointLimits.CheckpointTooLarge` |
| docs/design/minpatricia.md:310 merges small pages with a neighbour; src/minpatricia/include/minpatricia/index.h:1323-1331 does so once for each deletion | a full page whose last three slots are pages of two, three and two records, and a deletion from the middle one: it is joined with the first, and four slots stay beside two | a small page stays beside one that it fits with exactly when two pages were just joined, have fewer than ten slots in all, and are one part of the page above with a third child page that fits | `MergeLimits.SmallAgain`, `MergeLimits.SmallBesideFitting` |
| src/minpatricia/include/minpatricia/index.h:1671-1710: Retarget compares positions, not keys | an index with one key, retargeted to a position that carries another key: the key is lost | exactly this key is rebound exactly when the new position carries the same key as the old one | `Patricia.RetargetExact`, `Patricia.RetargetToOtherKey` |

## Left out

Assumptions the results rest on:

- Renaming a file into place is atomic, and a manifest or snapshot renamed into place is complete.
- The store of the eight-byte used offset and the initialisation of a segment header are single steps; `TornHeaders` says what happens otherwise. Giving a new file its size is a single step.
- A crash keeps what was written to the mappings (the end of the process, not of the machine). Data lost in any other order is the subject of `RecoveryLimits.PrefixExactly`.
- Returned I/O errors: no call into the file system fails. A manifest or snapshot that is too short reads as corrupt, which stands for the read error of the source.
- The store runs on the map from keys to positions. `StoreIndex` shows how the paged index stands for it step by step; the two are not one object.

Contracts weaker than the source on purpose:

- Stores.Store.Put: requires fewer than 2^30 - 1 live items and a generation number below 2^64 - 1, because a checkpoint it may trigger would leave a directory that cannot be opened; `CheckpointLimits.CheckpointTooLarge` shows what happens there.
- Stores.Store.Delete: requires at most 2^30 - 1 live items and a generation number below 2^64 - 1, for the same reason.
- Stores.Store.Checkpoint: requires the same, for the same reason.
- Stores.Store.Open: requires, without a manifest, that no later generation has WAL files; the source never makes such a directory. What an opening that fails leaves behind, such as headers it initialised, is not stated.
- IndexModule.Index.Put: requires that the record store reads the key at the position, which the source expects of its callers.
- Histories.Run: stops when a checkpoint would run out of items or generations.

Not modelled:

- File system calls, memory mapping, syncing, directory listing, path and file names: the directory is a value.
- Locks, the Runtime, closed and fatal states: operations run one at a time.
- The scans and seeks of the store: they are the iterations of the index with values read beside them.
- Read verification by Probe: it compares the index with itself.
- Corrupt pages: the page invariant holds, so the layout errors of the index are unreachable and not modelled.
- InsertFullAt, which nothing calls with a page that is not full, and the recursion wrappers around splitting.
- Page pointers in path frames: frames carry page ids. Scratch vectors are local sequences. Slots of merged pages are read before they are written.
- MergeLeftSibling and MergeRightSibling differ only in which of the two pages is the child; they are the one member MergeSiblings.
- Route words in pages: pages hold diff and left count, and `Words` shows that packing loses nothing.
- The unused tails of page arrays behind the slots in use.
- Callbacks of iterations are pure predicates; the calls they get are the result.
- Seals after opening are set at the end of opening instead of file by file.
- Benchmarks, fixtures, the in-memory HeapRecordStore, views, spans, status texts.
