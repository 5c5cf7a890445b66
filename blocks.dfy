/**
 * A manifest block (`Manifest.ManifestBlock`) as a value: its ordered record
 * list and the optional superblock, the persisted form of a block, the load
 * with its lenient fallback, and the list edits done by `Insert` and `Split`.
 */
module Blocks {
  import opened Wrappers
  import opened Paths
  import opened Records

  /** Split threshold of a freshly made superblock. */
  const DefaultSplitThreshold := 2000

  /** Next block id of a freshly made superblock (block 0 is the root). */
  const FirstUnassignedBlockId := 1

  /** Number of children `Split` makes. */
  const SplitWays := 2

  /** `Manifest.ManifestSuperBlock`: the block-id allocator and the split threshold. */
  datatype SuperBlock = SuperBlock(nextUnassignedBlockId: int, splitThreshold: int)

  /** The in-memory state of one block, apart from its dirty flag. */
  datatype ManifestBlock = ManifestBlock(records: seq<Record>, superBlock: Option<SuperBlock>)

  /** The attributes one `ManifestRecord` element carries on disk (the owner is implicit). */
  datatype StoredRecord = StoredRecord(path: string, fileExists: bool, fileLength: int, indirect: int)

  /** One `manifests/<id>.xml` file: an optional `SuperBlock` element and the record elements. */
  datatype BlockFile = BlockFile(superBlock: Option<SuperBlock>, records: seq<StoredRecord>)

  /** The storage backend's `manifests` directory, by block id. */
  type Storage = map<int, BlockFile>

  /** What `ManifestRecord.WriteXML` writes; a null path is written as the empty attribute. */
  function Stored(r: Record): StoredRecord {
    StoredRecord(if r.path.Some? then r.path.value else "", r.fileExists, r.fileLength, r.indirect)
  }

  /** What the parsing constructor of `ManifestRecord` builds for block `id`. */
  function Parsed(s: StoredRecord, id: int): Record {
    Record(Some(id), Some(s.path), s.fileExists, s.fileLength, s.indirect)
  }

  /** Every record of `list` is owned by block `id` and has a path. */
  predicate AllOwned(list: seq<Record>, id: int) {
    forall k | 0 <= k < |list| :: list[k].block == Some(id) && list[k].path.Some?
  }

  /** Block `b` may be cached under `id`: its records are owned by `id`, and the root carries a superblock. */
  predicate Owned(b: ManifestBlock, id: int) {
    AllOwned(b.records, id) && (id == 0 ==> b.superBlock.Some?)
  }

  /** What `WriteChanges` writes for a block. */
  function ToFile(b: ManifestBlock): (f: BlockFile)
    ensures f.superBlock == b.superBlock && |f.records| == |b.records|
    ensures forall k | 0 <= k < |b.records| && b.records[k].path.Some? ::
      f.records[k].path == b.records[k].path.value &&
      f.records[k].fileExists == b.records[k].fileExists &&
      f.records[k].fileLength == b.records[k].fileLength &&
      f.records[k].indirect == b.records[k].indirect
  {
    BlockFile(b.superBlock, seq(|b.records|, k requires 0 <= k < |b.records| => Stored(b.records[k])))
  }

  /**
   * The loading constructor of `ManifestBlock`: the stored file when there is
   * one, otherwise an empty block; block 0 without a stored superblock gets a
   * fresh one.
   */
  function LoadBlock(storage: Storage, id: int): (b: ManifestBlock)
    ensures id !in storage ==> b.records == []
    ensures id == 0 ==> b.superBlock.Some?
    ensures id == 0 && (id !in storage || storage[id].superBlock.None?) ==>
      b.superBlock == Some(SuperBlock(FirstUnassignedBlockId, DefaultSplitThreshold))
    ensures id in storage && (id != 0 || storage[id].superBlock.Some?) ==> b.superBlock == storage[id].superBlock
    ensures Owned(b, id)
  {
    var file := if id in storage then storage[id] else BlockFile(None, []);
    var records := seq(|file.records|, k requires 0 <= k < |file.records| => Parsed(file.records[k], id));
    var superBlock :=
      if id == 0 && file.superBlock.None? then Some(SuperBlock(FirstUnassignedBlockId, DefaultSplitThreshold))
      else file.superBlock;
    ManifestBlock(records, superBlock)
  }

  /** A block owned by `id`, written and read back, is the same block. */
  lemma LoadAfterWrite(storage: Storage, id: int, b: ManifestBlock)
    requires Owned(b, id)
    ensures LoadBlock(storage[id := ToFile(b)], id) == b
  {
    var loaded := LoadBlock(storage[id := ToFile(b)], id);
    assert |loaded.records| == |b.records|;
    forall k | 0 <= k < |b.records|
      ensures loaded.records[k] == b.records[k]
    {
      assert loaded.records[k] == Parsed(Stored(b.records[k]), id);
    }
  }

  /** Where `Insert` places a record: at the end for the tail record, else at the boundary's index. */
  function InsertPosition(list: seq<Record>, before: Record): int {
    if IsTailRecord(before) then |list| else IndexOfPath(list, before.path.value)
  }

  /** The record list after `Insert(newRecord, before)`. */
  function InsertBefore(list: seq<Record>, newRecord: Record, before: Record): (r: seq<Record>)
    requires !IsTailRecord(before) ==> IndexOfPath(list, before.path.value) >= 0
    ensures var k := InsertPosition(list, before);
      |r| == |list| + 1 && 0 <= k < |r| && r[k] == newRecord && r[..k] + r[k + 1..] == list
    ensures IsTailRecord(before) ==> r[|list|] == newRecord
    ensures !IsTailRecord(before) ==> r[InsertPosition(list, before) + 1].path == before.path
  {
    var k := InsertPosition(list, before);
    list[..k] + [newRecord] + list[k..]
  }

  /** Inserting a path strictly between its neighbours keeps the list strictly ascending. */
  lemma InsertKeepsAscending(list: seq<Record>, newRecord: Record, before: Record)
    requires Ascending(list) && newRecord.path.Some?
    requires !IsTailRecord(before) ==> IndexOfPath(list, before.path.value) >= 0
    requires var k := InsertPosition(list, before);
      (k == 0 || KeyBelow(list[k - 1].path, newRecord.path)) &&
      (k == |list| || KeyBelow(newRecord.path, list[k].path))
    ensures Ascending(InsertBefore(list, newRecord, before))
  {
    InsertAtKeepsAscending(list, newRecord, InsertPosition(list, before));
  }

  lemma InsertAtKeepsAscending(list: seq<Record>, x: Record, k: int)
    requires Ascending(list) && x.path.Some? && 0 <= k <= |list|
    requires k == 0 || KeyBelow(list[k - 1].path, x.path)
    requires k == |list| || KeyBelow(x.path, list[k].path)
    ensures Ascending(list[..k] + [x] + list[k..])
  {
    var r := list[..k] + [x] + list[k..];
    assert forall i | 0 <= i < |r| :: r[i] == if i < k then list[i] else if i == k then x else list[i - 1];
    forall i, j | 0 <= i < j < |r|
      ensures KeyBelow(r[i].path, r[j].path)
    {
      if j == k {
        if i < k - 1 {
          KeyBelowTransitive(list[i].path, list[k - 1].path, x.path);
        }
      } else if i == k {
        if j - 1 > k {
          KeyBelowTransitive(x.path, list[k].path, list[j - 1].path);
        }
      }
    }
  }

  /** First index of the old record list that goes to child `i` of a split of `count` records. */
  function SplitIndex(i: nat, count: nat): nat {
    i * count / SplitWays
  }

  /** The same entries, all owned by block `id`. */
  function Reowned(list: seq<Record>, id: int): (r: seq<Record>)
    ensures |r| == |list|
    ensures forall k | 0 <= k < |list| :: r[k] == ReplaceBlock(list[k], id)
  {
    seq(|list|, k requires 0 <= k < |list| => ReplaceBlock(list[k], id))
  }

  /** The record list `Split` gives child `i`. */
  function SplitChild(list: seq<Record>, i: nat, child: int): (r: seq<Record>)
    requires i < SplitWays
    ensures var start := if i == 0 then 0 else |list| / 2;
      |r| == (if i == 0 then |list| / 2 else |list| - |list| / 2) &&
      forall k | 0 <= k < |r| :: r[k] == ReplaceBlock(list[start + k], child)
  {
    assert SplitIndex(i, |list|) == (if i == 0 then 0 else |list| / 2);
    assert SplitIndex(i + 1, |list|) == (if i == 0 then |list| / 2 else |list|);
    Reowned(list[SplitIndex(i, |list|)..SplitIndex(i + 1, |list|)], child)
  }

  /** The record list `Split` leaves in the splitting block: one pointer record per child. */
  function SplitParent(list: seq<Record>, child0: int, child1: int): (r: seq<Record>)
    requires |list| >= 1
    ensures |r| == SplitWays && r[0].indirect == child0 && r[1].indirect == child1
    ensures r[0].(indirect := list[0].indirect) == list[0]
    ensures r[1].(indirect := list[|list| / 2].indirect) == list[|list| / 2]
  {
    [ReplaceIndirect(list[SplitIndex(0, |list|)], child0),
     ReplaceIndirect(list[SplitIndex(1, |list|)], child1)]
  }

  /**
   * The two children, concatenated, hold the old records in order with only the
   * owner replaced, and the pointer records keep path, existence and length of
   * the first record of each range.
   */
  lemma SplitCovers(list: seq<Record>, child0: int, child1: int)
    requires |list| >= 2
    ensures var c := SplitChild(list, 0, child0) + SplitChild(list, 1, child1);
      |c| == |list| &&
      forall k | 0 <= k < |list| :: c[k] == ReplaceBlock(list[k], if k < |list| / 2 then child0 else child1)
    ensures |SplitChild(list, 0, child0)| == |list| / 2 >= 1
    ensures |SplitChild(list, 1, child1)| == |list| - |list| / 2 >= 1
    ensures var p := SplitParent(list, child0, child1);
      p[0] == list[0].(indirect := child0) && p[1] == list[|list| / 2].(indirect := child1)
  {
    var m := |list| / 2;
    var a, b := SplitChild(list, 0, child0), SplitChild(list, 1, child1);
    forall k | 0 <= k < |list|
      ensures (a + b)[k] == ReplaceBlock(list[k], if k < m then child0 else child1)
    {
      if k < m {
        assert (a + b)[k] == a[k];
      } else {
        assert (a + b)[k] == b[k - m];
      }
    }
  }

  /** Each child of a split of an ascending list is ascending. */
  lemma SplitChildAscending(list: seq<Record>, i: nat, child: int)
    requires Ascending(list) && i < SplitWays
    ensures Ascending(SplitChild(list, i, child))
  {
    var lo, hi := SplitIndex(i, |list|), SplitIndex(i + 1, |list|);
    assert lo <= hi <= |list| by {
      assert i * |list| <= (i + 1) * |list| <= SplitWays * |list|;
    }
    var c := SplitChild(list, i, child);
    forall a, b | 0 <= a < b < |c|
      ensures KeyBelow(c[a].path, c[b].path)
    {
      assert c[a].path == list[lo + a].path && c[b].path == list[lo + b].path;
    }
  }

  /** The two pointer records left by a split of an ascending list of two or more are ascending. */
  lemma SplitParentAscending(list: seq<Record>, child0: int, child1: int)
    requires Ascending(list) && |list| >= 2
    ensures Ascending(SplitParent(list, child0, child1))
  {
    assert SplitIndex(0, |list|) == 0 && SplitIndex(1, |list|) == |list| / 2;
    assert KeyBelow(list[0].path, list[|list| / 2].path);
  }
}
