# Manifest index of the MapCruncher render output

This project models the disk-paged manifest of MapCruncher's back maker
(`Manifest` in `Tools/MapCruncher/MSR.CVE.BackMaker/Manifest.cs`). The manifest
maps an output-file path to whether the file exists and how long it is. Its
sorted index is split into blocks that are loaded from storage on demand:

- **Records.** A record (`ManifestRecord`) is one path entry. It may point to
  a child block that covers the keys from its path up to the next record's
  path. The shared tail record has no path and sorts after every key.
- **Superblock.** Block 0 (the root) carries the superblock
  (`ManifestSuperBlock`). It holds the block-id allocator and the split
  threshold.
- **Blocks.** A block (`ManifestBlock`) holds an ordered record list and a
  dirty flag. `Insert` places one record. `Split` turns a full block into two
  children plus two pointer records.
- **The controller.** `Manifest` caches blocks by id. It searches the tree
  level by level, adds paths (update in place, or insert and perhaps split),
  soft-deletes paths, and commits dirty blocks in batches.

The Dafny modules follow that structure:

- `Paths` (paths.dfy): the order on paths. The tail's missing path sorts last.
- `Records` (records.dfy): the record, the two stop predicates of a search, the
  by-path index lookup and the first-stop scan.
- `Blocks` (blocks.dfy): the superblock, the block value, the stored file form
  of a block, the lenient load, and the list edits done by `Insert` and `Split`.
- `Tree` (tree.dfy): the whole tree as a `View` (block id → record list).
  It also holds the tree invariant `ViewOk` and the multi-level search as the
  function `Find`/`Descent`.
- `TreeEdits` (updates.dfy): the edits made by `Add`, `Remove` and `Split` as
  functions on a `View`, each proved to keep the invariant. It also holds the
  soft-delete/resurrection lemmas.
- `Lookups` (lookups.dfy): the manifest read as a map from path to
  (existence, length), which is what `FindFirstEqual` reports. Its lemmas show
  that `Add` and `Remove` update that map at one path only and that `Split`
  leaves it unchanged.
- `ManifestIndex` (manifest.dfy): the class `Manifest`. Its fields are the
  storage directory, the block cache (a map from id to block), the set of dirty
  block ids and the change counter. Its methods mirror the C# methods one for
  one. Each of them is proved against the functions above:
  - `Search` returns exactly `Descent(View(), rank, stop)`;
  - `Add` and `Remove` leave `View()` equal to `AddView`/`SplitView` and
    `RemoveView`;
  - `CommitChanges` leaves `View()` and the invariant as they were, and
    leaves storage such that a fresh load holds the same records and forms a
    consistent store.

Several mutable objects become values in this model:

- A block is a value in the cache map, and every change to a block replaces
  its entry.
- A record refers to its owner and its child by block id.
- A block's dirty flag is membership in the set `dirty`.
- Storage is a map from block id to the block's stored file, for the
  `manifests` directory of the render output.

Search terminates because of a ghost `rank` on block ids that strictly
decreases along child pointers. Block ids alone do not order the tree. When an
internal block splits, the new children (fresh, larger ids) take over the
pointers to older, smaller ids.

## Model

| member | source | states |
|---|---|---|
| Records.ReplaceBlock | Tools/MapCruncher/MSR.CVE.BackMaker/Manifest.cs:125-128 | the copy has the new owner and is otherwise the same record; a record with a path stays well formed |
| Records.ReplaceIndirect | Tools/MapCruncher/MSR.CVE.BackMaker/Manifest.cs:129-132 | the copy points to the new child and is otherwise the same record; well-formedness is kept |
| Records.Stops | Tools/MapCruncher/MSR.CVE.BackMaker/Manifest.cs:411-418 | both stop predicates hold at the tail record's null path |
| Records.IndexOfPath | Tools/MapCruncher/MSR.CVE.BackMaker/Manifest.cs:310 | the result is -1 or an index holding the path, and no earlier index holds it |
| Records.FirstStop | Tools/MapCruncher/MSR.CVE.BackMaker/Manifest.cs:390-404 | the first index where the search stops: it passes every earlier record and stops at the one returned, unless none is left |
| Records.IndexOfAscending | Tools/MapCruncher/MSR.CVE.BackMaker/Manifest.cs:310 | in a strictly ascending block, the by-path lookup finds each record at its own index |
| Blocks.LoadBlock | Tools/MapCruncher/MSR.CVE.BackMaker/Manifest.cs:253-298 | a missing file gives an empty block; block 0 always has a superblock, the stored one or a fresh one (next id 1, threshold 2000); loaded records are owned by the block |
| Blocks.ToFile | Tools/MapCruncher/MSR.CVE.BackMaker/Manifest.cs:232-252 | the written file carries the superblock and, record by record, path, existence, length and child id |
| Blocks.LoadAfterWrite | Tools/MapCruncher/MSR.CVE.BackMaker/Manifest.cs:232-298 | a block written and then read back is the same block |
| Blocks.InsertBefore | Tools/MapCruncher/MSR.CVE.BackMaker/Manifest.cs:300-313 | the count grows by one; the new record is at the boundary's index (at the end for the tail); removing it gives back the old list; the boundary's path follows it |
| Blocks.InsertKeepsAscending | Tools/MapCruncher/MSR.CVE.BackMaker/Manifest.cs:300-313 | inserting a path strictly between its neighbours keeps the block strictly ascending |
| Blocks.Reowned | Tools/MapCruncher/MSR.CVE.BackMaker/Manifest.cs:338-340 | each record of the range becomes `ReplaceBlock` of the original, in order |
| Blocks.SplitChild | Tools/MapCruncher/MSR.CVE.BackMaker/Manifest.cs:330-340 | child 0 gets the first n/2 records and child 1 the remaining n-n/2, in order, each re-owned by the child |
| Blocks.SplitParent | Tools/MapCruncher/MSR.CVE.BackMaker/Manifest.cs:341-345 | the split block is left with exactly two pointer records: the first record of each half, pointing to child 0 and child 1 |
| Blocks.SplitCovers | Tools/MapCruncher/MSR.CVE.BackMaker/Manifest.cs:322-347 | the two children concatenated are the old records in order with only the owner replaced; each child is non-empty with n/2 and n-n/2 records; the two pointer records are the first records of the ranges with the children's ids |
| Blocks.SplitChildAscending | Tools/MapCruncher/MSR.CVE.BackMaker/Manifest.cs:332-340 | each child of a split of an ascending block is ascending |
| Blocks.SplitParentAscending | Tools/MapCruncher/MSR.CVE.BackMaker/Manifest.cs:341-345 | the two pointer records left in the split block are ascending |
| Tree.FindDescends | Tools/MapCruncher/MSR.CVE.BackMaker/Manifest.cs:394-400 | when the record before the stop has a child, that child is a proper lower-ranked block and the search continues there with the found record as boundary |
| Tree.Find | Tools/MapCruncher/MSR.CVE.BackMaker/Manifest.cs:382-410 | given a boundary at which the search stops, it only returns a record at which the stop predicate holds |
| Tree.SelfChildHasNoRank | Tools/MapCruncher/MSR.CVE.BackMaker/Manifest.cs:394-400 | a block whose record points to the block itself cannot satisfy the tree invariant, so the search never meets such a cycle |
| Tree.FindPlaced | Tools/MapCruncher/MSR.CVE.BackMaker/Manifest.cs:382-410 | the search returns a located record; it passed the record just before it in its block, and also all of that record's child |
| Tree.DescentPlaced | Tools/MapCruncher/MSR.CVE.BackMaker/Manifest.cs:382-410 | from the root, the search stops at the record it returns, and that record is placed as above |
| TreeEdits.FindSameShape | Tools/MapCruncher/MSR.CVE.BackMaker/Manifest.cs:382-410 | changing existence and length anywhere does not change where a search goes |
| TreeEdits.Mark | Tools/MapCruncher/MSR.CVE.BackMaker/Manifest.cs:46-63 | the block ids stay the same; every other block and every other record of the owner block is unchanged; the marked record takes the new existence and length |
| TreeEdits.SplitFacts | Tools/MapCruncher/MSR.CVE.BackMaker/Manifest.cs:322-347 | what `SplitView` is: exactly the two fresh child ids are added, child 0 holds the first n/2 records and child 1 the rest, re-owned; the split block holds the two pointer records; every other block is unchanged; the children take the split block's rank and higher ranks shift up |
| TreeEdits.MarkKeepsViewOk | Tools/MapCruncher/MSR.CVE.BackMaker/Manifest.cs:46-63 | the record setters change only that record's flag and length, in place; the tree invariant is kept and the record is still found at its index |
| TreeEdits.InsertKeepsViewOk | Tools/MapCruncher/MSR.CVE.BackMaker/Manifest.cs:428-439 | inserting an absent path before the record the search returned keeps every block ascending and every child below its parent's next record |
| TreeEdits.SplitKeepsViewOk | Tools/MapCruncher/MSR.CVE.BackMaker/Manifest.cs:322-347 | splitting a block of two or more records into two fresh ids keeps the tree invariant under the shifted rank |
| TreeEdits.AddEmptyKeepsViewOk | Tools/MapCruncher/MSR.CVE.BackMaker/Manifest.cs:374-381 | a freshly created, empty block keeps the tree invariant |
| TreeEdits.RemoveThenAddRestores | Tools/MapCruncher/MSR.CVE.BackMaker/Manifest.cs:445-454 | after a soft delete, the next search for the path returns the same record, now non-existing with length -1; re-adding marks that record exactly as adding would have |
| TreeEdits.AddView | Tools/MapCruncher/MSR.CVE.BackMaker/Manifest.cs:428-439 | the tree after an add, before any split: the blocks stay the same, the invariant holds, and the owner block grows by one record exactly when the path was not found |
| TreeEdits.RemoveView | Tools/MapCruncher/MSR.CVE.BackMaker/Manifest.cs:445-454 | a remove changes no record count, path or child; the invariant holds |
| TreeEdits.AddAfterRemove | Tools/MapCruncher/MSR.CVE.BackMaker/Manifest.cs:428-454 | an add right after removing the same path gives the tree the add alone would give |
| Lookups.EmptyFindsNothing | Tools/MapCruncher/MSR.CVE.BackMaker/Manifest.cs:419-427 | an empty manifest (one empty root block) keeps no path |
| Lookups.MarkedDescent | Tools/MapCruncher/MSR.CVE.BackMaker/Manifest.cs:46-63 | setting existence and length of a record changes what a search returns only when it returns that record, which it then returns with the new fields |
| Lookups.FindBelow | Tools/MapCruncher/MSR.CVE.BackMaker/Manifest.cs:382-410 | replacing a block the search from a lower-ranked block never reaches does not change that search |
| Lookups.InsertFindsNew | Tools/MapCruncher/MSR.CVE.BackMaker/Manifest.cs:300-313 | after a new path is inserted where the search for it ended, the search for it returns the new record |
| Lookups.InsertKeepsInfo | Tools/MapCruncher/MSR.CVE.BackMaker/Manifest.cs:300-313 | inserting a new path changes nothing the search reports about any other path |
| Lookups.SplitKeepsInfo | Tools/MapCruncher/MSR.CVE.BackMaker/Manifest.cs:322-347 | after a split, any search reports the same about a path as before |
| Lookups.AddFinds | Tools/MapCruncher/MSR.CVE.BackMaker/Manifest.cs:428-444 | after adding a path, looking it up gives existing with the added length, whether it was new or already present |
| Lookups.AddKeepsOthers | Tools/MapCruncher/MSR.CVE.BackMaker/Manifest.cs:428-444 | adding a path changes the lookup of no other path |
| Lookups.RemoveClears | Tools/MapCruncher/MSR.CVE.BackMaker/Manifest.cs:445-454 | after removing a path, looking it up gives non-existing with length -1 if it was kept, and nothing if it was not |
| Lookups.RemoveKeepsOthers | Tools/MapCruncher/MSR.CVE.BackMaker/Manifest.cs:445-454 | removing a path changes the lookup of no other path |
| Lookups.SplitKeepsLookup | Tools/MapCruncher/MSR.CVE.BackMaker/Manifest.cs:322-347 | a split keeps the tree invariant and changes the lookup of no path |
| ManifestIndex.ReloadSameView | Tools/MapCruncher/MSR.CVE.BackMaker/Manifest.cs:455-461 | once every cached block equals its stored copy, the manifest holds what a fresh load from storage would hold |
| ManifestIndex.EmptyStoreOk | Tools/MapCruncher/MSR.CVE.BackMaker/Manifest.cs:294-297 | an empty directory is a consistent store, and the manifest over it holds one empty root block |
| ManifestIndex.Manifest.CommitBlock | Tools/MapCruncher/MSR.CVE.BackMaker/Manifest.cs:219-227 | a clean block is not written; a dirty block is written, becomes clean, and reads back as cached |
| ManifestIndex.Manifest.CommitCachedBlocks | Tools/MapCruncher/MSR.CVE.BackMaker/Manifest.cs:457-460 | the loop over the cached blocks: every dirty block is written and no block stays dirty; other files are untouched; a reload would hold the same records |
| ManifestIndex.Manifest.CommitChanges | Tools/MapCruncher/MSR.CVE.BackMaker/Manifest.cs:455-461 | everything the loop promises, and what the manifest holds is unchanged; a valid manifest stays valid, and its storage alone is then a consistent store under the same rank, so a new manifest can be opened on it |
| ManifestIndex.Manifest.NoteDirty | Tools/MapCruncher/MSR.CVE.BackMaker/Manifest.cs:462-470 | the counter goes up by one; once it passes 100, all dirty blocks are written and it restarts at 0, so it stays within 0..100 |
| ManifestIndex.Manifest.SetBlockDirty | Tools/MapCruncher/MSR.CVE.BackMaker/Manifest.cs:214-218 | the block is marked dirty and the change is counted (with the batched commit past 100); the manifest's content is unchanged |
| ManifestIndex.Manifest.FetchBlock | Tools/MapCruncher/MSR.CVE.BackMaker/Manifest.cs:364-373 | the cached block if present, else the block loaded from storage, now cached; nothing else changes |
| ManifestIndex.Manifest.SetNextUnassignedBlockId | Tools/MapCruncher/MSR.CVE.BackMaker/Manifest.cs:153-164 | the allocator takes the value; the root joins the dirty set and the counter steps, or at the limit everything dirty including the root is written and the counter restarts; records are unchanged and the new ids hold empty blocks |
| ManifestIndex.Manifest.SetSplitThreshold | Tools/MapCruncher/MSR.CVE.BackMaker/Manifest.cs:141-152 | the threshold takes the value; the root joins the dirty set and the counter steps, or at the limit everything dirty including the root is written and the counter restarts; content and invariant are unchanged |
| ManifestIndex.Manifest.CreateBlock | Tools/MapCruncher/MSR.CVE.BackMaker/Manifest.cs:374-381 | the new id is the old allocator value, was not cached, and the allocator goes up by one; an empty block is cached under it |
| ManifestIndex.Manifest.Scan | Tools/MapCruncher/MSR.CVE.BackMaker/Manifest.cs:388-408 | the scan of a block followed by its boundary stops at `FirstStop`, returns the record there (the boundary past the end) and the record before it; the loop cannot run out |
| ManifestIndex.Manifest.Search | Tools/MapCruncher/MSR.CVE.BackMaker/Manifest.cs:382-410 | the search terminates and returns `Descent` of the tree; it only loads blocks into the cache, and content and invariant are unchanged |
| ManifestIndex.Manifest.FindFirstGreaterThan | Tools/MapCruncher/MSR.CVE.BackMaker/Manifest.cs:411-414 | the result is the tail or has a path above `p`, and is placed after records below or at `p` |
| ManifestIndex.Manifest.FindFirstGreaterEqual | Tools/MapCruncher/MSR.CVE.BackMaker/Manifest.cs:415-418 | the result is the tail or has a path at or above `p`, and is placed after records below `p` |
| ManifestIndex.Manifest.FindFirstEqual | Tools/MapCruncher/MSR.CVE.BackMaker/Manifest.cs:419-427 | the result has path `p` exactly (the record the search found, located in its block) or is the tail record; it reports exactly `Lookup` of the path |
| ManifestIndex.Manifest.SetFileExists | Tools/MapCruncher/MSR.CVE.BackMaker/Manifest.cs:46-51 | only that record's existence flag changes; its block joins the dirty set and the counter goes up by one, or past the limit every dirty block is written and the counter restarts at 0 |
| ManifestIndex.Manifest.SetFileLength | Tools/MapCruncher/MSR.CVE.BackMaker/Manifest.cs:52-63 | only that record's length changes; its block joins the dirty set and the counter goes up by one, or past the limit every dirty block is written and the counter restarts at 0 |
| ManifestIndex.Manifest.PutRecords | Tools/MapCruncher/MSR.CVE.BackMaker/Manifest.cs:340-346 | the block's record list is replaced; every other block's content is unchanged; the block joins the dirty set and the counter goes up by one, or past the limit every dirty block is written and the counter restarts at 0 |
| ManifestIndex.Manifest.Insert | Tools/MapCruncher/MSR.CVE.BackMaker/Manifest.cs:300-313 | the block becomes `InsertBefore` of its records; no other block changes; the block joins the dirty set and one change is counted, with the batched commit past the limit |
| ManifestIndex.Manifest.CreateSubBlocks | Tools/MapCruncher/MSR.CVE.BackMaker/Manifest.cs:324-329 | exactly two blocks are created, with the next two consecutive ids, and they are empty |
| ManifestIndex.Manifest.FillSubBlocks | Tools/MapCruncher/MSR.CVE.BackMaker/Manifest.cs:330-347 | child i gets its range, re-owned, and the split block gets the two pointer records; three changes are counted, one per `SetDirty` |
| ManifestIndex.Manifest.SplitBlocks | Tools/MapCruncher/MSR.CVE.BackMaker/Manifest.cs:322-347 | the tree becomes `SplitView` of the old one, and the allocator has advanced by two |
| ManifestIndex.Manifest.Split | Tools/MapCruncher/MSR.CVE.BackMaker/Manifest.cs:322-347 | as `SplitBlocks`, and the tree invariant is kept under `SplitRank` |
| ManifestIndex.Manifest.SetFields | Tools/MapCruncher/MSR.CVE.BackMaker/Manifest.cs:433-434 | the two setters in a row change existence and length of one record and nothing else |
| ManifestIndex.Manifest.MarkRecord | Tools/MapCruncher/MSR.CVE.BackMaker/Manifest.cs:433-434 | the found record is updated in place (`Mark`), and the invariant is kept |
| ManifestIndex.Manifest.Add | Tools/MapCruncher/MSR.CVE.BackMaker/Manifest.cs:428-444 | the tree becomes `AddView`, then `SplitView` of the owner block exactly when the path was new and the block now exceeds the threshold; the path then looks up as existing with the given length and every other path as before; two changes are counted for an update, one for an insert, six for an insert and split; the invariant is kept |
| ManifestIndex.Manifest.Remove | Tools/MapCruncher/MSR.CVE.BackMaker/Manifest.cs:445-454 | the tree becomes `RemoveView`: a kept path then looks up as non-existing with length -1, a path not kept stays absent and no change is counted, and every other path looks up as before |
| ManifestIndex.Manifest.constructor | Tools/MapCruncher/MSR.CVE.BackMaker/Manifest.cs:355-359 | only the root block is fetched; the manifest holds what storage holds and satisfies the invariant |

## Left out

- The XML form of a block file is not modelled. This covers `WriteXML`,
  `WriteChanges`, the parsing constructors, `GetXmlTag` and
  `manifestFilename`. A stored block is the value `BlockFile`, and storage is a
  map from block id to `BlockFile`.
- Partial loads are not modelled. When a parse fails partway, the swallowed
  exception leaves the block with the records read before the failure (and the
  superblock, if it was read). Here a stored block is always read back whole,
  and a block with no stored file reads back empty.
- Streams, the storage backend (`RenderOutputMethod`) and the tell-dirty
  delegates are left out. Their calls become direct updates of the fields.
- `D.Assert` (log and continue) is not modelled. Its conditions become
  preconditions:
  - the record constructor's owner-implies-path check;
  - `Insert`'s owner checks;
  - `CreateBlock`'s fresh-id check;
  - the unreachable end of the `Search` loop, which is proved unreachable.
- `D` logging is left out.
- `ManifestRecord.ToString` is left out. It only formats text.
- Paths are compared by character code, not by `string.CompareTo`'s
  culture-sensitive order. The order only needs to be a strict total order
  that agrees with `==` on equality.
- Integer widths are not modelled. `int` and `long` are unbounded here; ids
  and counters stay far below their limits.
- `CommitChanges` iterates over the dictionary's values. Here it commits the
  cached blocks in an arbitrary order. The result does not depend on the order.
- Records are values, not shared objects. A record returned by a search is
  updated in its block through its owner id and its index there. The model
  does not capture the aliasing of one `ManifestRecord` object between callers.
- The tree invariant does not state the lower bound of a child's key range
  (child records at or above the parent's record). That bound needs every
  block to have a single parent, which the source never states. Nor does the
  invariant state that paths are unique across blocks: after a split, the
  parent keeps a pointer copy of each child's first record.
- ManifestIndex.Manifest.Split: requires two or more records. With the threshold at 1 or
  above, a split from `Add` always has at least two. A one-record split (only
  reachable through a threshold of 0 or below) would leave the same path twice in the
  split block.
- ManifestIndex.Manifest.SetSplitThreshold: requires a threshold of at least 1, which the
  source does not check.
- ManifestIndex.Manifest.CreateBlock: its contract does not say that the tree invariant is
  kept. The lemma `TreeEdits.AddEmptyKeepsViewOk` states that separately.
- ManifestIndex.Manifest.Search: the frame condition says that storage, the dirty set and
  the root block are unchanged and that blocks are only added to the cache. It
  does not say, entry by entry, that cached blocks keep their values. The
  unchanged `View()` covers their records.
- ManifestIndex.Manifest.constructor: it requires `StoreOk`, which asks more of the stored
  directory than the source checks when it opens one:
  - a stored split threshold of at least 1. The source can persist 0 or a
    negative value through `Test_SetSplitThreshold` and a commit;
  - a stored `nextUnassignedBlockId` of at least 1;
  - no stored block file at or beyond that allocator value. `CreateBlock`
    (Manifest.cs:374-381) would load such a stale file as the "new" block,
    with whatever records it holds;
  - a ghost rank under which the stored blocks form a tree.

  A directory that breaks any of these is outside the model. A
  stored cycle of child pointers, such as a record pointing to its own block,
  would make `Search` (Manifest.cs:382-410) loop forever. `Tree.SelfChildHasNoRank`
  shows that such a store has no rank.
- Paths compare with `string.CompareTo` in the code, which is culture
  sensitive and may return 0 for two distinct strings. `FindFirstEqual` then
  checks equality with `==`, so under such a culture it could miss a stored
  path. The model's strict order never ties distinct paths, and that case is
  not modelled.
